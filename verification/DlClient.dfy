/**
  dlrealloc and dlmemalign, and what a program sees of any run of the allocator:
  its blocks never overlap, and giving all of them back leaves one free chunk.
 */
module DlClient {
  import opened DlIndex
  import opened DlTrie
  import opened DlTags
  import opened DlHeap
  import opened Arith
  import opened DlBitmap
  import opened Seqs
  import SB = DlSmallBins
  import TB = DlTreeBins

  /** set_inuse: this chunk, of s bytes, is in use, and so the next one's pinuse bit is set. */
  function SetInuse(head: Heads, p: Addr, s: nat): Heads {
    var h: Heads := head[p := WordAt(head, p) % 2 + s + CINUSE_BIT];
    h[p + s := SetPin(WordAt(h, p + s))]
  }

  /** The tags of a chunk in use cut in two at nb. */
  ghost function CutTags(head: Heads, p: Addr, s: nat, nb: nat): Heads
    requires nb <= s
  {
    head[p := WordAt(head, p) % 2 + nb + 2][p + nb := s - nb + 3]
  }

  /** Tagging the two parts in either order gives the same words. */
  lemma SetInuseTwice(head: Heads, p: Addr, s: nat, nb: nat)
    requires 0 < nb < s && nb % 8 == 0 && s % 8 == 0 && p + s in head && head[p + s] % 2 == 1
    ensures SetInuse(SetInuse(head, p, nb), p + nb, s - nb) == CutTags(head, p, s, nb)
    ensures SetInuse(SetInuse(head, p + nb, s - nb), p, nb) == CutTags(head, p, s, nb)
  {
    Mod8(s, nb);
    LowBits(2 * ((s - nb) / 8), 2);
    LowBits(2 * ((s - nb) / 8), 3);
  }

  lemma CutSpliceSets(head: Heads, foot: Heads, cs: seq<Chunk>, j: nat, nb: nat)
    requires SegmentOk(head, foot, cs) && j < |cs| && cs[j].inuse && nb < cs[j].size
    ensures var cs', mid := Splice(cs, j, j + 1, CutAt(cs[j], nb, true)), CutAt(cs[j], nb, true);
            && Frees(cs') == Frees(cs) && Live(cs') == Live(cs) - {cs[j]} + {mid[0], mid[1]}
            && cs' != [] && cs'[0].addr == cs[0].addr
  {
    hide Tagged, Tiled;
    var mid := CutAt(cs[j], nb, true);
    SpliceSets(cs, j, j + 1, mid);
    assert cs[j..j + 1] == [cs[j]];
    Only(cs[j]);
    CutSets(cs[j], nb, true);
    SpliceAt(cs, j, j + 1, mid, 0);
  }

  /** No free chunk starts inside a chunk in use. */
  lemma NoFreeInside(cs: seq<Chunk>, j: nat, a: Addr)
    requires Tiled(cs) && j < |cs| && cs[j].inuse && cs[j].addr <= a < End(cs[j])
    ensures a !in Frees(cs)
  {
    if a in Frees(cs) {
      var i :| 0 <= i < |cs| && !cs[i].inuse && cs[i].addr == a;
      if i < j { Ordered(cs, i, j); } else { Ordered(cs, j, i); }
    }
  }

  /** Words of chunks in use change nothing for the bins and dv. */
  lemma UsedUnseen(head: Heads, head': Heads, frees: set<Addr>, sb: set<Addr>, tb: set<Addr>, dv: Addr, top: Addr)
    requires Owners(frees, sb, tb, dv, top, {})
    requires forall a | a in frees && a in head :: a in head' && head'[a] == head[a]
    ensures SameSizes(head, head', sb) && SameSizes(head, head', tb) && SameSizes(head, head', DvSet(dv))
  {
    hide ChunkSize;
    assert sb <= frees && tb <= frees && DvSet(dv) <= frees;
  }

  lemma CutTransition(h: Heap, head1: Heads, j: nat, nb: nat)
    requires h.Valid() && j < |h.cs| && h.cs[j].inuse && nb % 8 == 0 && 16 <= nb && nb + 16 <= h.cs[j].size
    requires head1 == CutTags(h.head, h.cs[j].addr, h.cs[j].size, nb)
    ensures var cs', mid := Splice(h.cs, j, j + 1, CutAt(h.cs[j], nb, true)), CutAt(h.cs[j], nb, true);
            && h.OkIn(head1, h.foot, cs', {}, h.dv, h.dvsize, h.top, h.topsize)
            && Live(cs') == Live(h.cs) - {h.cs[j]} + {mid[0], mid[1]}
  {
    hide Tagged, Tiled, Splice, TB.BinsOk, SB.SmallOk, Owners, Frees, Live, ChunkSize, SegmentOk;
    var cs := h.cs;
    CutOk(h.head, h.foot, cs, j, nb, head1);
    CutSpliceSets(h.head, h.foot, cs, j, nb);
    TiledOf(h.head, h.foot, cs);
    NoFreeInside(cs, j, cs[j].addr);
    NoFreeInside(cs, j, cs[j].addr + nb);
    UsedUnseen(h.head, head1, Frees(cs), h.small.Binned(), h.tree.Binned(), h.dv, h.top);
    h.SeeHeads(h.head, head1);
  }

  lemma TiledOf(head: Heads, foot: Heads, cs: seq<Chunk>)
    requires SegmentOk(head, foot, cs)
    ensures Tiled(cs) && cs != []
  {
  }

  /** The chunk of a payload, as its words describe it. */
  lemma UsedChunk(head: Heads, foot: Heads, cs: seq<Chunk>, mem: Addr) returns (j: nat)
    requires SegmentOk(head, foot, cs) && IsPayload(Live(cs), mem)
    ensures j + 1 < |cs| && cs[j].inuse && cs[j] == LiveChunk(Live(cs), mem) && ChunkOk(cs[j])
    ensures var c := cs[j];
            && c.addr in head && ChunkSize(head[c.addr]) == c.size && End(c) in head && head[End(c)] % 2 == 1
            && c.size >= 16 && End(c) == cs[j + 1].addr && (End(c) == Last(cs).addr <==> j + 2 == |cs|)
  {
    hide Tagged, Tiled, ChunkOk, ChunkSize;
    var k, m;
    j, k, m := FindBlock(head, foot, cs, mem);
    BlockReads(head, foot, cs, j, k, m);
    Neighbours(head, foot, cs, j);
    PinBits(cs[j + 1], true);
  }

  /** A payload address belongs to one live chunk. */
  lemma OneChunk(cs: seq<Chunk>, c: Chunk)
    requires Tiled(cs) && c in Live(cs)
    ensures IsPayload(Live(cs), c.addr + 8) && LiveChunk(Live(cs), c.addr + 8) == c
  {
    var d := LiveChunk(Live(cs), c.addr + 8);
    if d != c { ChunksDisjoint(cs, c, d); }
  }

  /** Cut a live chunk in two live chunks; frontFirst says which part is tagged first. */
  method CutUsed(h: Heap, mem: Addr, nb: nat, frontFirst: bool)
    requires h.Valid() && IsPayload(Live(h.cs), mem)
    requires nb % 8 == 0 && MIN_CHUNK_SIZE <= nb && nb + MIN_CHUNK_SIZE <= LiveChunk(Live(h.cs), mem).size
    modifies h`head, h`cs
    ensures h.Valid()
    ensures var c := old(LiveChunk(Live(h.cs), mem));
            Live(h.cs) == old(Live(h.cs)) - {c} + {Chunk(c.addr, nb, true), Chunk(c.addr + nb, c.size - nb, true)}
  {
    hide Tagged, Tiled, Splice, TB.BinsOk, SB.SmallOk, Owners, Frees, Live, ChunkSize, SegmentOk;
    ghost var j := UsedChunk(h.head, h.foot, h.cs, mem);
    var p: Addr := mem - 8;
    var s := ChunkSize(h.head[p]);
    hide SetPin, ChunkOk;
    SetInuseTwice(h.head, p, s, nb);
    var r, rsize := p + nb, s - nb;
    ghost var head1 := CutTags(h.head, p, s, nb);
    CutTransition(h, head1, j, nb);
    if frontFirst {
      h.head := SetInuse(SetInuse(h.head, p, nb), r, rsize);
    } else {
      h.head := SetInuse(SetInuse(h.head, r, rsize), p, nb);
    }
    h.cs := Splice(h.cs, j, j + 1, CutAt(h.cs[j], nb, true));
  }

  lemma ExpandParts(head: Heads, foot: Heads, cs: seq<Chunk>, nb: nat)
    requires SegmentOk(head, foot, cs) && |cs| >= 2 && cs[|cs| - 2].inuse && nb % 8 == 0 &&
        16 <= nb < cs[|cs| - 2].size + Last(cs).size
    ensures var k := |cs| - 2;
            GoodParts(cs, k, |cs|, CutAt(Chunk(cs[k].addr, cs[k].size + Last(cs).size, false), nb, false))
  {
    hide Tagged;
    var k := |cs| - 2;
    Neighbours(head, foot, cs, k);
    Mod8(cs[k].addr, nb);
    Mod8(cs[k].size, Last(cs).size);
    Mod8(cs[k].size + Last(cs).size, nb);
  }

  lemma ExpandSets(cs: seq<Chunk>, nb: nat)
    requires |cs| >= 2 && cs[|cs| - 2].inuse && !Last(cs).inuse && nb < cs[|cs| - 2].size + Last(cs).size
    ensures var k := |cs| - 2;
            var mid := CutAt(Chunk(cs[k].addr, cs[k].size + Last(cs).size, false), nb, false);
            && Frees(cs[k..]) == {Last(cs).addr} && Live(cs[k..]) == {cs[k]}
            && Frees(mid) == {Last(mid).addr} && Live(mid) == {mid[0]}
  {
    var k := |cs| - 2;
    var whole := Chunk(cs[k].addr, cs[k].size + Last(cs).size, false);
    assert cs[k..] == [cs[k]] + [Last(cs)] + [];
    SetsOf(cs[k..], [cs[k]], [Last(cs)], []);
    Only(cs[k]);
    Only(Last(cs));
    CutSets(whole, nb, false);
  }

  /** A live chunk just before top takes some of it. */
  method ExpandIntoTop(h: Heap, mem: Addr, nb: nat)
    requires h.Valid() && IsPayload(Live(h.cs), mem)
    requires nb % 8 == 0 && MIN_CHUNK_SIZE <= nb
    requires var c := LiveChunk(Live(h.cs), mem); End(c) == h.top && c.size < nb < c.size + h.topsize
    modifies h`head, h`cs, h`top, h`topsize
    ensures h.Valid()
    ensures var c := old(LiveChunk(Live(h.cs), mem)); Live(h.cs) == old(Live(h.cs)) - {c} + {Chunk(c.addr, nb, true)}
  {
    hide Tagged, Tiled, Splice, TB.BinsOk, SB.SmallOk, Owners, Frees, Live, ChunkSize, SegmentOk;
    ghost var k := UsedChunk(h.head, h.foot, h.cs, mem);
    hide ChunkOk;
    ghost var head0: Heads, cs0, t, ts := h.head, h.cs, h.top, h.topsize;
    ghost var mid := CutAt(Chunk(cs0[k].addr, cs0[k].size + ts, false), nb, false);
    var p: Addr := mem - 8;
    var newsize: nat := ChunkSize(h.head[p]) + h.topsize;
    var newtop: Addr := p + nb;
    h.head := SetInuse(h.head, p, nb);
    h.head := h.head[newtop := newsize - nb + PINUSE_BIT];
    h.top := newtop;
    h.topsize := newsize - nb;
    assert h.head == head0[p := WordAt(head0, p) % 2 + nb + 2][newtop := newsize - nb + 1];
    ExpandOk(head0, h.foot, cs0, k, nb, h.head);
    ExpandParts(head0, h.foot, cs0, nb);
    ExpandSets(cs0, nb);
    h.TransitionTop(head0, h.foot, cs0, {}, h.dv, h.dvsize, t, ts, k, mid, h.head, h.foot);
    assert {} - Frees(cs0[k..]) == {};
    h.cs := Splice(cs0, k, k + 2, mid);
  }

  /** Bytes the program may use in a chunk: all but one word of overhead. */
  function Payload(c: Chunk): nat { if c.size < CHUNK_OVERHEAD then 0 else c.size - CHUNK_OVERHEAD }

  function Min(a: nat, b: nat): nat { if a < b then a else b }

  /** The n bytes that were at mem are at r, and only the first `bytes` bytes at r may have changed. */
  ghost predicate Moved(before: seq<int>, after: seq<int>, mem: Addr, r: Addr, n: nat, bytes: nat) {
    && |after| == |before| && n <= bytes && mem + n <= |before| && r + bytes <= |before|
    && after[r..r + n] == before[mem..mem + n] && after[..r] == before[..r] && after[r + bytes..] == before[r + bytes..]
  }

  /** Whatever a program had asked for when it got a block of this size: it finds those bytes again, up to `bytes`. */
  ghost predicate BytesKept(before: seq<int>, after: seq<int>, mem: Addr, r: Addr, size: nat, bytes: nat) {
    forall asked: nat | Request2Size(asked) <= size ::
      var n := Min(asked, bytes);
      mem + n <= |before| && r + n <= |after| && after[r..r + n] == before[mem..mem + n]
  }

  lemma MovedKeeps(before: seq<int>, after: seq<int>, mem: Addr, r: Addr, c: Chunk, bytes: nat)
    requires Moved(before, after, mem, r, Min(Payload(c), bytes), bytes)
    ensures BytesKept(before, after, mem, r, c.size, bytes)
  {
    var n := Min(Payload(c), bytes);
    hide Request2Size;
    forall asked: nat | Request2Size(asked) <= c.size
      ensures var m := Min(asked, bytes);
              mem + m <= |before| && r + m <= |after| && after[r..r + m] == before[mem..mem + m]
    {
      PayloadHolds(c, asked);
      var m := Min(asked, bytes);
      assert after[r..r + m] == after[r..r + n][..m] && before[mem..mem + m] == before[mem..mem + n][..m];
    }
  }

  lemma PayloadHolds(c: Chunk, asked: nat)
    requires Request2Size(asked) <= c.size
    ensures asked <= Payload(c)
  {
  }

  lemma MovedWithin(before: seq<int>, after: seq<int>, mem: Addr, r: Addr, n: nat, bytes: nat)
    requires Moved(before, after, mem, r, n, n) && n <= bytes && r + bytes <= |before|
    ensures Moved(before, after, mem, r, n, bytes)
  {
    assert after[r + bytes..] == after[r + n..][bytes - n..];
    assert before[r + bytes..] == before[r + n..][bytes - n..];
  }

  /** memcpy of n bytes between places that do not overlap. */
  method Copy(data: array<int>, to: Addr, from: Addr, n: nat)
    requires to + n <= data.Length && from + n <= data.Length && (to + n <= from || from + n <= to)
    modifies data
    ensures Moved(old(data[..]), data[..], from, to, n, n)
  {
    for i := 0 to n
      invariant forall a | 0 <= a < data.Length && (a < to || a >= to + i) :: data[a] == old(data[a])
      invariant forall a | to <= a < to + i :: data[a] == old(data[a - to + from])
    {
      data[to + i] := data[from + i];
    }
  }

  /** The payloads of two live chunks, each reaching into the next chunk's prev_foot, do not overlap. */
  lemma PayloadsDisjoint(cs: seq<Chunk>, c: Chunk, d: Chunk)
    requires Tiled(cs) && c in Live(cs) && d in Live(cs) && c != d
    ensures End(c) + 4 <= d.addr + 8 || End(d) + 4 <= c.addr + 8
  {
    ChunksDisjoint(cs, c, d);
  }

  /** A chunk that starts inside a live chunk, other than that chunk itself, is not live. */
  lemma InsideNotLive(cs: seq<Chunk>, c: Chunk, d: Chunk)
    requires Tiled(cs) && c in Live(cs) && c.addr <= d.addr < End(c) && d != c && d.size > 0
    ensures d !in Live(cs)
  {
    if d in Live(cs) { ChunksDisjoint(cs, c, d); }
  }

  /** The chunk of mem has nb bytes, or it lies before top and the two together have more. */
  ghost predicate FitsInPlace(h: Heap, mem: Addr, nb: nat)
    requires IsPayload(Live(h.cs), mem)
    reads h
  {
    var c := LiveChunk(Live(h.cs), mem);
    nb <= c.size || (End(c) == h.top && nb < c.size + h.topsize)
  }

  /** The chunk c once it has nb bytes: cut if enough is left over for a chunk, or grown into top. */
  function Resized(c: Chunk, nb: nat): Chunk {
    if nb <= c.size then Cut(c.addr, c.size, nb) else Chunk(c.addr, nb, true)
  }

  /** The part of internal_realloc that resizes the chunk where it is; false when it cannot. */
  method ResizeInPlace(h: Heap, mem: Addr, nb: nat) returns (done: bool)
    requires h.Valid() && IsPayload(Live(h.cs), mem) && nb % 8 == 0 && MIN_CHUNK_SIZE <= nb
    modifies h`head, h`foot, h`cs, h`dv, h`dvsize, h`top, h`topsize, h.small, h.tree
    ensures h.Valid()
    ensures done <==> old(FitsInPlace(h, mem, nb))
    ensures done ==> Allocated(old(Live(h.cs)) - {old(LiveChunk(Live(h.cs), mem))}, Live(h.cs), mem, nb)
    ensures done ==> var c := old(LiveChunk(Live(h.cs), mem)); Live(h.cs) == old(Live(h.cs)) - {c} + {Resized(c, nb)}
    ensures !done ==> unchanged(h, h.small, h.tree)
  {
    hide Tagged, Tiled, Splice, TB.BinsOk, SB.SmallOk, Owners, Frees, Live, ChunkSize, SegmentOk, DvOk, TB.AllAddrs,
        SB.AllSmall;
    ghost var j := UsedChunk(h.head, h.foot, h.cs, mem);
    TiledOf(h.head, h.foot, h.cs);
    ghost var live, c := Live(h.cs), h.cs[j];
    ghost var a := Chunk(c.addr, nb, true);
    if a != c { InsideNotLive(h.cs, c, a); }
    var oldp := mem - 8;
    var oldsize := ChunkSize(h.head[oldp]);
    done := true;
    if oldsize >= nb {
      if oldsize - nb >= MIN_CHUNK_SIZE {
        ghost var r := Chunk(c.addr + nb, c.size - nb, true);
        InsideNotLive(h.cs, c, r);
        CutUsed(h, mem, nb, true);
        TiledOf(h.head, h.foot, h.cs);
        OneChunk(h.cs, r);
        h.Free(mem + nb);
        assert live - {c} + {a, r} - {r} == live - {c} + {a};
        MakeAllocated(live - {c}, Live(h.cs), a, nb);
      } else {
        assert live == live - {c} + {c};
        MakeAllocated(live - {c}, Live(h.cs), c, nb);
      }
    } else if oldp + oldsize == h.top && oldsize + h.topsize > nb {
      ExpandIntoTop(h, mem, nb);
      MakeAllocated(live - {c}, Live(h.cs), a, nb);
    } else {
      done := false;
    }
  }

  /** The copy: as much of c's payload as was asked for goes to d's. */
  method CopyPayload(h: Heap, data: array<int>, ghost c: Chunk, ghost d: Chunk, mem: Addr, r: Addr, oc: nat, bytes: nat)
    requires h.Valid() && c in Live(h.cs) && d in Live(h.cs) && c != d && data.Length >= WORD && bytes < MAX_REQUEST
    requires c.addr + 8 == mem && d.addr + 8 == r && oc == Payload(c) && Request2Size(bytes) <= d.size
    modifies data
    ensures Moved(old(data[..]), data[..], mem, r, Min(Payload(c), bytes), bytes)
  {
    hide Tagged, Tiled, Splice, TB.BinsOk, SB.SmallOk, Owners, Frees, Live, SegmentOk, DvOk, Request2Size, Moved;
    RequestSize(bytes);
    TiledOf(h.head, h.foot, h.cs);
    PayloadsDisjoint(h.cs, c, d);
    InHeap(h, c);
    InHeap(h, d);
    Copy(data, r, mem, Min(oc, bytes));
    MovedWithin(old(data[..]), data[..], mem, r, Min(oc, bytes), bytes);
  }

  /** d takes over the contents of c, and c is given back. */
  method HandOver(h: Heap, data: array<int>, ghost c: Chunk, ghost d: Chunk, mem: Addr, r: Addr, oc: nat, bytes: nat)
    requires h.Valid() && c in Live(h.cs) && d in Live(h.cs) && c != d && data.Length >= WORD && bytes < MAX_REQUEST
    requires c.addr + 8 == mem && d.addr + 8 == r && oc == Payload(c) && Request2Size(bytes) <= d.size
    modifies h`head, h`foot, h`cs, h`dv, h`dvsize, h`top, h`topsize, h.small, h.tree, data
    ensures h.Valid() && Live(h.cs) == old(Live(h.cs)) - {c} && r != mem
    ensures Moved(old(data[..]), data[..], mem, r, Min(Payload(c), bytes), bytes)
  {
    hide Tagged, Tiled, Splice, TB.BinsOk, SB.SmallOk, Owners, Frees, Live, ChunkSize, SegmentOk, DvOk, TB.AllAddrs,
        SB.AllSmall, Request2Size, Moved, DvFollows;
    CopyPayload(h, data, c, d, mem, r, oc, bytes);
    TiledOf(h.head, h.foot, h.cs);
    PayloadsDisjoint(h.cs, c, d);
    InHeap(h, c);
    InHeap(h, d);
    OneChunk(h.cs, c);
    h.Free(mem);
  }

  /** malloc-copy-free: a new chunk takes over the contents of the old one. */
  method MoveBlock(h: Heap, data: array<int>, mem: Addr, bytes: nat, grant: nat) returns (r: Addr)
    requires h.Valid() && IsPayload(Live(h.cs), mem) && bytes < MAX_REQUEST && data.Length >= WORD
    requires grant % 8 == 0 && h.limit + grant + TOP_FOOT_SIZE <= WORD
    modifies h`head, h`foot, h`cs, h`dv, h`dvsize, h`top, h`topsize, h`limit, h.small, h.tree, data
    ensures h.Valid() && h.limit in {old(h.limit), old(h.limit) + grant}
    ensures r == 0 <==> old(h.NoRoom(Request2Size(bytes), grant))
    ensures r == 0 ==> Live(h.cs) == old(Live(h.cs)) && data[..] == old(data[..])
    ensures r != 0 ==> r > 8 && r != mem && old(h.Serves(Request2Size(bytes), r - 8))
    ensures r != 0 ==>
      var c := old(LiveChunk(Live(h.cs), mem));
      && Allocated(old(Live(h.cs)) - {c}, Live(h.cs), r, Request2Size(bytes))
      && Live(h.cs) == old(Live(h.cs)) - {c} + {old(h.Given(Request2Size(bytes), r - 8))}
      && Moved(old(data[..]), data[..], mem, r, Min(Payload(c), bytes), bytes)
  {
    hide Tagged, Tiled, Splice, TB.BinsOk, SB.SmallOk, Owners, Frees, Live, ChunkSize, SegmentOk, DvOk, TB.AllAddrs,
        SB.AllSmall, Request2Size, Allocated, Moved, Heap.Serves, Heap.Given, Heap.NoRoom, Heap.DvAfter, DvFollows;
    ghost var j := UsedChunk(h.head, h.foot, h.cs, mem);
    ghost var live, c := Live(h.cs), h.cs[j];
    var oc := ChunkSize(h.head[mem - 8]) - CHUNK_OVERHEAD;
    r := h.Malloc(bytes, grant);
    if r != 0 {
      ghost var d := NewChunk(live, Live(h.cs), r, Request2Size(bytes));
      HandOver(h, data, c, d, mem, r, oc, bytes);
      assert live + {d} - {c} == live - {c} + {d};
      MakeAllocated(live - {c}, Live(h.cs), d, Request2Size(bytes));
    }
  }

  lemma NewChunk(live: set<Chunk>, live': set<Chunk>, mem: Addr, nb: nat) returns (d: Chunk)
    requires Allocated(live, live', mem, nb)
    ensures d !in live && live' == live + {d} && d.inuse && d.addr + 8 == mem && mem % 8 == 0 &&
        nb <= d.size < nb + MIN_CHUNK_SIZE
  {
    d :| d !in live && live' == live + {d} && d.inuse && d.addr + 8 == mem && mem % 8 == 0 &&
        nb <= d.size < nb + MIN_CHUNK_SIZE;
  }

  lemma InHeap(h: Heap, c: Chunk)
    requires h.Valid() && c in Live(h.cs)
    ensures End(c) + TOP_FOOT_SIZE <= WORD && c.size >= 16
  {
    hide Tagged, TB.BinsOk, SB.SmallOk, Owners;
    var j :| 0 <= j < |h.cs| && h.cs[j] == c;
    Bounds(h.head, h.foot, h.cs, j);
  }

  /** dlrealloc, with REALLOC_ZERO_BYTES_FREES. */
  method Realloc(h: Heap, data: array<int>, mem: Addr, bytes: nat, grant: nat) returns (r: Addr)
    requires h.Valid() && (mem == 0 || IsPayload(Live(h.cs), mem)) && bytes < WORD && data.Length >= WORD
    requires grant % 8 == 0 && h.limit + grant + TOP_FOOT_SIZE <= WORD
    modifies h`head, h`foot, h`cs, h`dv, h`dvsize, h`top, h`topsize, h`limit, h.small, h.tree, data
    ensures h.Valid() && h.limit in {old(h.limit), old(h.limit) + grant}
    ensures mem == 0 && r != 0 ==> Allocated(old(Live(h.cs)), Live(h.cs), r, Request2Size(bytes))
    ensures mem == 0 && r != 0 ==>
      && r > 8 && old(h.Serves(Request2Size(bytes), r - 8))
      && Live(h.cs) == old(Live(h.cs)) + {old(h.Given(Request2Size(bytes), r - 8))}
    ensures mem != 0 && bytes == 0 ==> r == 0 && Live(h.cs) == old(Live(h.cs)) - {old(LiveChunk(Live(h.cs), mem))}
    ensures mem == 0 ==> (r == 0 <==> bytes >= MAX_REQUEST || old(h.NoRoom(Request2Size(bytes), grant)))
    ensures mem != 0 && bytes != 0 ==>
      (r == 0 <==>
        bytes >= MAX_REQUEST || old(!FitsInPlace(h, mem, Request2Size(bytes)) && h.NoRoom(Request2Size(bytes), grant)))
    ensures r == 0 && (mem == 0 || bytes != 0) ==> Live(h.cs) == old(Live(h.cs)) && data[..] == old(data[..])
    ensures mem != 0 && r != 0 ==>
      var c := old(LiveChunk(Live(h.cs), mem));
      && Allocated(old(Live(h.cs)) - {c}, Live(h.cs), r, Request2Size(bytes))
      && (if old(FitsInPlace(h, mem, Request2Size(bytes))) then
            r == mem && Live(h.cs) == old(Live(h.cs)) - {c} + {Resized(c, Request2Size(bytes))}
          else
            && r > 8 && r != mem && old(h.Serves(Request2Size(bytes), r - 8))
            && Live(h.cs) == old(Live(h.cs)) - {c} + {old(h.Given(Request2Size(bytes), r - 8))})
      && Moved(old(data[..]), data[..], mem, r, Min(Payload(c), bytes), bytes)
      && BytesKept(old(data[..]), data[..], mem, r, c.size, bytes)
  {
    hide Tagged, Tiled, Splice, TB.BinsOk, SB.SmallOk, Owners, Frees, Live, ChunkSize, SegmentOk, DvOk, TB.AllAddrs,
        SB.AllSmall, BytesKept;
    if mem == 0 {
      r := h.Malloc(bytes, grant);
    } else if bytes == 0 {
      h.Free(mem);
      r := 0;
    } else if bytes >= MAX_REQUEST {
      r := 0;
    } else {
      RequestSize(bytes);
      ghost var live, c := Live(h.cs), LiveChunk(Live(h.cs), mem);
      InHeap(h, c);
      var nb := Request2Size(bytes);
      var done := ResizeInPlace(h, mem, nb);
      if done {
        ghost var d := NewChunk(live - {c}, Live(h.cs), mem, nb);
        InHeap(h, d);
        r := mem;
      } else {
        r := MoveBlock(h, data, mem, bytes, grant);
      }
      if r != 0 { MovedKeeps(old(data[..]), data[..], mem, r, c, bytes); }
    }
  }

  /* ---- dlmemalign ---- */

  lemma {:induction false} PowOrder(i: nat, j: nat)
    ensures i <= j ==> Pow2(i) <= Pow2(j)
    decreases j
  {
    if i < j { PowOrder(i, j - 1); }
  }

  /** Rounding a request's alignment up to a power of two, at least MIN_CHUNK_SIZE. */
  method RoundAlignment(alignment: nat) returns (a: nat)
    requires alignment <= 0x8000_0000
    ensures exists k: nat :: 4 <= k < 32 && a == Pow2(k)
    ensures alignment <= a && MIN_CHUNK_SIZE <= a <= 0x8000_0000 && a % 16 == 0 && (a == 16 || a < 2 * alignment)
  {
    a := 16;
    ghost var k := 4;
    assert Pow2(4) == 16;
    while a < alignment
      invariant 4 <= k < 32 && a == Pow2(k) && 16 <= a <= 0x8000_0000 && a % 16 == 0 && (a == 16 || a < 2 * alignment)
      decreases alignment - a
    {
      PowOrder(k, 31);
      PowOrder(k + 1, 31);
      Pow2Values();
      a := a * 2;
      k := k + 1;
    }
  }

  /** What the loop of the rounding has reached after k turns, on 32 bits. */
  function Doubled(k: nat): nat { if k == 0 then 16 else Doubled(k - 1) * 2 % WORD }

  lemma OneDoubling(k: nat)
    ensures Pow2(k + 1) == 2 * Pow2(k) && (k + 1 < 32 ==> Pow2(k + 1) < WORD) && Pow2(32) == WORD
    ensures Pow2(4) == 16
  {
    PowOrder(k + 1, 31);
    Pow2Values();
  }

  lemma {:induction false} DoubledIs(k: nat)
    ensures Doubled(k) == if k < 28 then Pow2(k + 4) else 0
  {
    hide Pow2;
    OneDoubling(k + 3);
    if k > 0 { DoubledIs(k - 1); }
  }

  /** The loop ends exactly for alignments of at most 2^31; beyond that the doubled value becomes 0 and stays so. */
  lemma RoundingEnds(alignment: nat)
    requires 0 < alignment < WORD
    ensures (exists k :: alignment <= Doubled(k)) <==> alignment <= 0x8000_0000
  {
    Pow2Values();
    DoubledIs(27);
    forall k: nat ensures Doubled(k) <= 0x8000_0000 {
      DoubledIs(k);
      PowOrder(k + 4, 31);
    }
  }

  /** A multiple of a multiple of 8 is a multiple of 8. */
  lemma MultipleOf8(x: nat, a: nat)
    requires a > 0 && a % 8 == 0 && x % a == 0
    ensures x % 8 == 0
  {
    var q, b := x / a, a / 8;
    assert x == a * q;
    assert x == 8 * (b * q);
  }

  /** The next multiple of a, as the mask computes it. */
  lemma NextMultiple(x: nat, a: nat)
    requires a > 0 && x % a != 0
    ensures (x + a - 1) / a * a == x - x % a + a && (x - x % a + a) % a == 0 && (x - x % a + a + a) % a == 0
  {
    var q := x / a;
    assert x == q * a + x % a;
    Quotient(x + a - 1, a, q + 1, x % a - 1);
    Quotient(x - x % a + a, a, q + 1, 0);
    Quotient(x - x % a + a + a, a, q + 2, 0);
  }

  /** The aligned spot in a chunk at p whose payload is misaligned: 16 bytes or more in front, and not too many. */
  function AlignedSpot(p: Addr, a: nat): (pos: nat)
    requires a >= 16 && a % 16 == 0 && p % 8 == 0 && (p + 8) % a != 0
    ensures (pos + 8) % a == 0 && (pos - p) % 8 == 0 && p + 16 <= pos <= p + a + 8
  {
    SpotFacts(p, a);
    var br := RoundUp(p + 8, a) - 8;
    if br - p >= MIN_CHUNK_SIZE then br else br + a
  }

  function RoundUp(x: nat, a: nat): nat
    requires a > 0
  {
    (x + a - 1) / a * a
  }

  lemma SpotFacts(p: Addr, a: nat)
    requires a >= 16 && a % 16 == 0 && p % 8 == 0 && (p + 8) % a != 0
    ensures var b := RoundUp(p + 8, a);
            b % 8 == 0 && b % a == 0 && (b + a) % a == 0 && p + 8 < b && b <= p + 8 + a && (b - 8 - p) % 8 == 0 &&
                (b - 8 + a - p) % 8 == 0
            && (b - 8 - p < 16 ==> b - 8 - p <= 8)
  {
    NextMultiple(p + 8, a);
    var b := RoundUp(p + 8, a);
    MultipleOf8(b, a);
    Mod8(b, 8);
    Mod8(b - 8, p);
    Mod8(b - 8 - p, a);
  }

  /** One new chunk whose payload is a multiple of a. */
  ghost predicate AllocatedAligned(live: set<Chunk>, live': set<Chunk>, mem: Addr, nb: nat, a: nat) {
    exists c :: c !in live && live' == live + {c} && c.inuse && c.addr + 8 == mem && a > 0 && mem % a == 0 &&
        nb <= c.size <= nb + MIN_CHUNK_SIZE
  }

  /**
    q is where an aligned chunk starts in one that starts at p: at once if p's payload is aligned, else at the first
    place that is and leaves room for a chunk before it.
   */
  ghost predicate IsSpot(p: Addr, q: Addr, a: nat)
    requires a > 0
  {
    if (p + 8) % a == 0 then q == p else (q + 8) % a == 0 && p + MIN_CHUNK_SIZE <= q < p + MIN_CHUNK_SIZE + a
  }

  /** What stays of the chunk d from q on: nb bytes, or all if no more than 16 are left over. */
  function Trimmed(d: Chunk, q: Addr, nb: nat): Chunk {
    var rest := if q <= End(d) then End(d) - q else 0;
    Chunk(q, if rest > nb + MIN_CHUNK_SIZE then nb else rest, true)
  }

  /** The aligned chunk is cut out of the chunk that malloc gives for a request wide enough. */
  ghost predicate CutOut(h: Heap, live': set<Chunk>, r: Addr, nb: nat, a: nat)
    requires a > 0
    reads h, h.small, h.tree
  {
    exists p: Addr :: CutFrom(h, p, live', r, nb, a)
  }

  ghost predicate CutFrom(h: Heap, p: Addr, live': set<Chunk>, r: Addr, nb: nat, a: nat)
    requires a > 0
    reads h, h.small, h.tree
  {
    && h.Serves(nb + a + 16, p) && r > 8 && IsSpot(p, r - 8, a)
    && live' == Live(h.cs) + {Trimmed(h.Given(nb + a + 16, p), r - 8, nb)}
  }

  /** Cutting a live chunk whose parts are then told apart from everything else live. */
  method CutLive(h: Heap, ghost live: set<Chunk>, ghost d: Chunk, mem: Addr, nb: nat, frontFirst: bool)
    requires h.Valid() && d !in live && Live(h.cs) == live + {d} && d.addr + 8 == mem
    requires nb % 8 == 0 && MIN_CHUNK_SIZE <= nb && nb + MIN_CHUNK_SIZE <= d.size
    modifies h`head, h`cs
    ensures h.Valid()
    ensures var f, b := Chunk(d.addr, nb, true), Chunk(d.addr + nb, d.size - nb, true);
            f !in live && b !in live && Live(h.cs) == live + {f, b}
  {
    hide Tagged, Tiled, Splice, TB.BinsOk, SB.SmallOk, Owners, Frees, Live, ChunkSize, SegmentOk, DvOk, TB.AllAddrs,
        SB.AllSmall;
    TiledOf(h.head, h.foot, h.cs);
    ghost var f, b := Chunk(d.addr, nb, true), Chunk(d.addr + nb, d.size - nb, true);
    InsideNotLive(h.cs, d, f);
    InsideNotLive(h.cs, d, b);
    OneChunk(h.cs, d);
    CutUsed(h, mem, nb, frontFirst);
    assert live + {d} - {d} + {f, b} == live + {f, b};
  }

  method FreeLive(h: Heap, ghost live: set<Chunk>, ghost d: Chunk, mem: Addr)
    requires h.Valid() && d !in live && Live(h.cs) == live + {d} && d.addr + 8 == mem
    modifies h`head, h`foot, h`cs, h`dv, h`dvsize, h`top, h`topsize, h.small, h.tree
    ensures h.Valid() && Live(h.cs) == live
  {
    hide Tagged, Tiled, Splice, TB.BinsOk, SB.SmallOk, Owners, Frees, Live, ChunkSize, SegmentOk, DvOk, TB.AllAddrs,
        SB.AllSmall;
    TiledOf(h.head, h.foot, h.cs);
    OneChunk(h.cs, d);
    h.Free(mem);
    assert live + {d} - {d} == live;
  }

  /** The leader, if there must be one, is cut off the chunk d; c is the rest. */
  method CutLeader(h: Heap, ghost live: set<Chunk>, ghost d: Chunk, mem: Addr, nb: nat, a: nat)
    returns (p: Addr, leader: Addr, ghost f: Chunk, ghost c: Chunk, ghost front: set<Chunk>)
    requires h.Valid() && d !in live && Live(h.cs) == live + {d} && d.addr + 8 == mem && d.inuse && mem % 8 == 0
    requires nb % 8 == 0 && MIN_CHUNK_SIZE <= nb && a >= 16 && a % 16 == 0 && nb + a + 16 <= d.size
    modifies h`head, h`cs
    ensures h.Valid() && Live(h.cs) == front + {c} && c !in front && c !in live
    ensures IsSpot(d.addr, p, a) && c == Chunk(p, End(d) - p, true) && p + nb <= End(d) && (p + 8) % a == 0
    ensures front == if leader == 0 then live else live + {f}
    ensures leader != 0 ==> leader == f.addr + 8 && f !in live + {c}
  {
    hide Tagged, Tiled, Splice, TB.BinsOk, SB.SmallOk, Owners, Frees, Live, ChunkSize, SegmentOk, DvOk, TB.AllAddrs,
        SB.AllSmall;
    p, leader, f, c, front := mem - 8, 0, d, d, live;
    if mem % a != 0 {
      var pos: Addr := AlignedSpot(p, a);
      CutLive(h, live, d, mem, pos - p, false);
      f, c := Chunk(p, pos - p, true), Chunk(pos, d.size - (pos - p), true);
      leader := p + 8;
      p := pos;
      front := live + {f};
    }
  }

  /** The trailer, if there is enough, is cut off the chunk c; e is the rest. */
  method CutTrailer(h: Heap, ghost front: set<Chunk>, ghost c: Chunk, p: Addr, nb: nat)
    returns (trailer: Addr, ghost e: Chunk, ghost t: Chunk, ghost back: set<Chunk>)
    requires h.Valid() && c !in front && Live(h.cs) == front + {c} && c.addr == p && c.inuse
    requires nb % 8 == 0 && MIN_CHUNK_SIZE <= nb <= c.size
    modifies h`head, h`cs
    ensures h.Valid() && Live(h.cs) == front + {e} + back && e !in front
    ensures e == Chunk(p, if c.size > nb + MIN_CHUNK_SIZE then nb else c.size, true)
    ensures back == if trailer == 0 then {} else {t}
    ensures trailer != 0 ==> trailer == t.addr + 8 && t !in front + {e}
  {
    hide Tagged, Tiled, Splice, TB.BinsOk, SB.SmallOk, Owners, Frees, Live, ChunkSize, SegmentOk, DvOk, TB.AllAddrs,
        SB.AllSmall;
    trailer, e, t, back := 0, c, c, {};
    var size := SizeOf(h, c, p + 8);
    if size > nb + MIN_CHUNK_SIZE {
      CutLive(h, front, c, p + 8, nb, true);
      t := Chunk(p + nb, c.size - nb, true);
      e := Chunk(p, nb, true);
      trailer := p + nb + 8;
      back := {t};
      assert front + {e, t} == front + {e} + back;
    }
  }

  /** Give back what an aligned chunk has in front and behind. */
  method AlignChunk(h: Heap, ghost live: set<Chunk>, ghost d: Chunk, mem: Addr, nb: nat, a: nat) returns (r: Addr)
    requires h.Valid() && d !in live && Live(h.cs) == live + {d} && d.addr + 8 == mem && d.inuse && mem % 8 == 0
    requires nb % 8 == 0 && MIN_CHUNK_SIZE <= nb && a >= 16 && a % 16 == 0 && nb + a + 16 <= d.size
    modifies h`head, h`foot, h`cs, h`dv, h`dvsize, h`top, h`topsize, h.small, h.tree
    ensures h.Valid() && r > 8 && AllocatedAligned(live, Live(h.cs), r, nb, a)
    ensures IsSpot(mem - 8, r - 8, a) && Live(h.cs) == live + {Trimmed(d, r - 8, nb)}
  {
    hide Heap.OkIn, Live, IsSpot;
    var p, leader, trailer;
    ghost var f, c, front, e, t, back;
    p, leader, f, c, front := CutLeader(h, live, d, mem, nb, a);
    trailer, e, t, back := CutTrailer(h, front, c, p, nb);
    r := p + 8;
    if leader != 0 {
      assert front + {e} + back == live + {e} + back + {f};
      FreeLive(h, live + {e} + back, f, leader);
    }
    if trailer != 0 {
      FreeLive(h, live + {e}, t, trailer);
    }
    assert Live(h.cs) == live + {e};
  }

  /** chunksize of a live chunk. */
  method SizeOf(h: Heap, ghost c: Chunk, mem: Addr) returns (s: nat)
    requires h.Valid() && c in Live(h.cs) && c.addr + 8 == mem
    ensures s == c.size
  {
    hide Tagged, Tiled, Splice, TB.BinsOk, SB.SmallOk, Owners, Frees, Live, ChunkSize, SegmentOk, DvOk, TB.AllAddrs,
        SB.AllSmall;
    TiledOf(h.head, h.foot, h.cs);
    OneChunk(h.cs, c);
    ghost var j := UsedChunk(h.head, h.foot, h.cs, mem);
    s := ChunkSize(h.head[mem - 8]);
  }

  lemma AlignRequest(bytes: nat, a: nat)
    requires a % 16 == 0 && a <= 0x8000_0000 && bytes < MAX_REQUEST - a
    ensures Request2Size(bytes) + a + 12 < WORD &&
        Request2Size(Request2Size(bytes) + a + 12) == Request2Size(bytes) + a + 16
  {
    var nb := Request2Size(bytes);
    RequestSize(bytes);
    PadExact(nb + a + 16);
  }

  lemma PadExact(n: nat)
    requires n % 8 == 0 && n >= 16
    ensures PadRequest(n - 4) == n
  {
    var q := n / 8;
    assert (8 * q + 7) / 8 == q;
  }

  /** The bins' headers lie below the segment, so that nothing as large as MAX_REQUEST ever fits. */
  lemma NothingThatBig(h: Heap, nb: nat, grant: nat)
    requires h.Valid() && nb >= MAX_REQUEST && h.limit + grant + TOP_FOOT_SIZE <= WORD
    ensures h.NoRoom(nb, grant)
  {
    hide Tagged, Tiled, TB.BinsOk, Owners, Frees, ChunkSize, Live;
    Bounds(h.head, h.foot, h.cs, |h.cs| - 1);
    assert h.base >= 8 * SB.NSMALLBINS;
    forall a | a in Frees(h.cs) - {h.top} ensures a in h.head && ChunkSize(h.head[a]) < nb {
      FreeWord(h.head, h.foot, h.cs, a);
      Bounds(h.head, h.foot, h.cs, ChunkAt(h.cs, a));
    }
  }

  /** internal_memalign for an alignment that malloc does not give by itself. */
  method MemalignWide(h: Heap, a: nat, bytes: nat, grant: nat) returns (r: Addr)
    requires h.Valid() && MIN_CHUNK_SIZE <= a <= 0x8000_0000 && a % 16 == 0 && bytes < WORD
    requires grant % 8 == 0 && h.limit + grant + TOP_FOOT_SIZE <= WORD
    modifies h`head, h`foot, h`cs, h`dv, h`dvsize, h`top, h`topsize, h`limit, h.small, h.tree
    ensures h.Valid() && h.limit in {old(h.limit), old(h.limit) + grant}
    ensures r == 0 ==> Live(h.cs) == old(Live(h.cs))
    ensures r == 0 <==> bytes >= MAX_REQUEST - a || old(h.NoRoom(Request2Size(bytes) + a + 16, grant))
    ensures r != 0 ==> AllocatedAligned(old(Live(h.cs)), Live(h.cs), r, Request2Size(bytes), a)
    ensures r != 0 ==> var live' := Live(h.cs); old(CutOut(h, live', r, Request2Size(bytes), a))
  {
    hide Tagged, Tiled, Splice, TB.BinsOk, SB.SmallOk, Owners, Frees, Live, ChunkSize, SegmentOk, DvOk, TB.AllAddrs,
        SB.AllSmall, Request2Size, Allocated;
    ghost var live := Live(h.cs);
    r := 0;
    if bytes < MAX_REQUEST - a {
      var nb := Request2Size(bytes);
      RequestSize(bytes);
      AlignRequest(bytes, a);
      if nb + a + 12 >= MAX_REQUEST { NothingThatBig(h, nb + a + 16, grant); }
      var req: nat := nb + a + MIN_CHUNK_SIZE - CHUNK_OVERHEAD;
      r := h.Malloc(req, grant);
      if r != 0 {
        ghost var d := NewChunk(live, Live(h.cs), r, nb + a + 16);
        ghost var p: Addr := r - 8;
        assert Live(h.cs) == live + {d} && d == old(h.Given(nb + a + 16, p));
        r := AlignChunk(h, live, d, r, nb, a);
        assert var live' := Live(h.cs); old(CutFrom(h, p, live', r, nb, a));
      }
    }
  }

  /** dlmemalign; a is the alignment asked for, rounded up to a power of two. */
  method Memalign(h: Heap, alignment: nat, bytes: nat, grant: nat) returns (r: Addr, a: nat)
    requires h.Valid() && alignment <= 0x8000_0000 && bytes < WORD
    requires grant % 8 == 0 && h.limit + grant + TOP_FOOT_SIZE <= WORD
    modifies h`head, h`foot, h`cs, h`dv, h`dvsize, h`top, h`topsize, h`limit, h.small, h.tree
    ensures h.Valid() && h.limit in {old(h.limit), old(h.limit) + grant}
    ensures (exists k: nat :: 3 <= k < 32 && a == Pow2(k)) && alignment <= a && (a <= 16 || a < 2 * alignment)
    ensures r == 0 ==> Live(h.cs) == old(Live(h.cs))
    ensures alignment <= MALLOC_ALIGNMENT ==>
      (r == 0 <==> bytes >= MAX_REQUEST || old(h.NoRoom(Request2Size(bytes), grant)))
    ensures alignment > MALLOC_ALIGNMENT ==>
      (r == 0 <==> bytes >= MAX_REQUEST - a || old(h.NoRoom(Request2Size(bytes) + a + 16, grant)))
    ensures r != 0 ==> AllocatedAligned(old(Live(h.cs)), Live(h.cs), r, Request2Size(bytes), a)
    ensures r != 0 && alignment <= MALLOC_ALIGNMENT ==>
      && r > 8 && old(h.Serves(Request2Size(bytes), r - 8))
      && Live(h.cs) == old(Live(h.cs)) + {old(h.Given(Request2Size(bytes), r - 8))}
    ensures r != 0 && alignment > MALLOC_ALIGNMENT ==>
      var live' := Live(h.cs); old(CutOut(h, live', r, Request2Size(bytes), a))
  {
    hide Tagged, Tiled, Splice, TB.BinsOk, SB.SmallOk, Owners, Frees, Live, ChunkSize, SegmentOk, DvOk, TB.AllAddrs,
        SB.AllSmall, Request2Size, Allocated, Heap.Serves, Heap.Given, Heap.DvAfter, Heap.NoRoom, CutOut;
    if alignment <= MALLOC_ALIGNMENT {
      ghost var live := Live(h.cs);
      Pow2Values();
      a := 8;
      r := h.Malloc(bytes, grant);
      if r != 0 { ghost var d := NewChunk(live, Live(h.cs), r, Request2Size(bytes)); }
    } else {
      a := RoundAlignment(alignment);
      r := MemalignWide(h, a, bytes, grant);
    }
  }

  /* ---- What a program sees ---- */

  /** A free chunk's links, which the bins keep in its payload area: two words, or six in a tree bin. */
  function LinkBytes(size: nat): nat { if size < MIN_LARGE_SIZE then 8 else 24 }

  /**
    No word in which the allocator keeps something lies in a live payload: not a head, a free chunk's foot or its
    links.
   */
  lemma MetadataOutsidePayload(cs: seq<Chunk>, c: Chunk, d: Chunk)
    requires Tiled(cs) && c in Live(cs) && d in cs
    ensures d.addr + 8 <= c.addr + 8 || End(c) + 4 <= d.addr + 4
    ensures !d.inuse ==> End(d) + 4 <= c.addr + 8 || End(c) + 4 <= End(d)
    ensures !d.inuse && d.size >= 16 ==> d.addr + 8 + LinkBytes(d.size) <= c.addr + 8 || End(c) + 4 <= d.addr + 8
  {
    if c != d { ChunksDisjoint(cs, c, d); }
    assert forall i | 0 <= i < |cs| :: cs[i] in cs ==> ChunkOk(cs[i]);
  }

  /** [a, a + m) and [b, b + n) have no byte in common. */
  predicate NoOverlap(a: nat, m: nat, b: nat, n: nat) { a + m <= b || b + n <= a }

  /**
    The words the allocator keeps do not overlap each other either, whichever of the three maps they are in: the heads
    of chunks (4 bytes at addr + 4), the feet of free chunks (4 bytes at their end) and the links of free chunks.
   */
  lemma MetadataApart(cs: seq<Chunk>, c: Chunk, d: Chunk)
    requires Tiled(cs) && c in cs && d in cs
    ensures c != d ==> NoOverlap(c.addr + 4, 4, d.addr + 4, 4)
    ensures c != d ==> NoOverlap(End(c), 4, End(d), 4)
    ensures NoOverlap(End(c), 4, d.addr + 4, 4)
    ensures MIN_CHUNK_SIZE <= c.size ==> NoOverlap(c.addr + 8, LinkBytes(c.size), d.addr + 4, 4)
    ensures MIN_CHUNK_SIZE <= c.size ==> NoOverlap(c.addr + 8, LinkBytes(c.size), End(d), 4)
    ensures c != d && MIN_CHUNK_SIZE <= c.size && MIN_CHUNK_SIZE <= d.size ==>
      NoOverlap(c.addr + 8, LinkBytes(c.size), d.addr + 8, LinkBytes(d.size))
  {
    if c != d { ChunksDisjoint(cs, c, d); }
    assert forall i | 0 <= i < |cs| :: cs[i] in cs ==> ChunkOk(cs[i]);
  }

  /**
    The run-time checks of dlfree and internal_realloc pass for every live payload: ok_address, ok_cinuse, ok_next and
    ok_pinuse, and for a free chunk before it ok_address again.
   */
  lemma ChecksPass(h: Heap, mem: Addr)
    requires h.Valid() && IsPayload(Live(h.cs), mem)
    ensures var p := mem - 8;
            && h.base <= p && p in h.head && h.head[p] % 4 >= 2
            && (h.head[p] % 2 == 0 ==> p in h.foot && h.base <= p - h.foot[p] < p && p - h.foot[p] in h.head)
            && var next := p + ChunkSize(h.head[p]); p < next && next in h.head && h.head[next] % 2 == 1
  {
    hide Tagged, Tiled, TB.BinsOk, SB.SmallOk, Owners, Frees, Live, ChunkSize, ChunkOk, SegmentOk, DvOk, IsPayload;
    TagChecks(h.head, h.foot, h.cs, mem);
    if h.head[mem - 8] % 2 == 0 { PrevCheck(h.head, h.foot, h.cs, mem); }
  }

  lemma TagChecks(head: Heads, foot: Heads, cs: seq<Chunk>, mem: Addr)
    requires SegmentOk(head, foot, cs) && IsPayload(Live(cs), mem)
    ensures var p := mem - 8;
            && cs[0].addr <= p && p in head && head[p] % 4 >= 2
            && var next := p + ChunkSize(head[p]); p < next && next in head && head[next] % 2 == 1
  {
    hide Tagged, Tiled, Frees, Live, ChunkSize, ChunkOk;
    var j := UsedChunk(head, foot, cs, mem);
    Bounds(head, foot, cs, j);
    Neighbours(head, foot, cs, j);
    WordBits(cs[j], j == 0 || cs[j - 1].inuse);
  }

  lemma PrevCheck(head: Heads, foot: Heads, cs: seq<Chunk>, mem: Addr)
    requires SegmentOk(head, foot, cs) && IsPayload(Live(cs), mem) && mem - 8 in head && head[mem - 8] % 2 == 0
    ensures var p := mem - 8; p in foot && cs[0].addr <= p - foot[p] < p && p - foot[p] in head
  {
    hide SegmentOk, Tagged, Tiled, Frees, Live, ChunkSize, IsPayload;
    var j, k, m := FindBlock(head, foot, cs, mem);
    BlockReads(head, foot, cs, j, k, m);
    Bounds(head, foot, cs, k);
  }

  /** The run-time checks on link words pass for every binned chunk, whatever macro follows its links. */
  lemma LinkChecksPass(h: Heap, a: Addr)
    requires h.Valid()
    ensures a in h.tree.Binned() ==>
      && a in h.tree.link && h.tree.link[a].index < |h.tree.treebins|
      && var i := h.tree.link[a].index;
         TB.TreeLinksPass(h.tree.link, a, h.tree.treebins[i], TB.Cell(h.tree.binsAt, i), h.tree.least)
    ensures a in h.small.Binned() ==>
      && a in h.head && a in h.small.link && OkAddress(h.small.least, a)
      && var header := SB.HeaderAt(h.small.binsAt, ChunkSize(h.head[a]) / 8);
         && (h.small.link[a].fd == header || OkAddress(h.small.least, h.small.link[a].fd))
         && (h.small.link[a].bk == header || OkAddress(h.small.least, h.small.link[a].bk))
         && header in h.small.link && OkAddress(h.small.least, h.small.link[header].fd)
  {
    hide Owners, SegmentOk, TB.BinsOk, Frees, BitsOf, SB.SmallOk, TB.AllAddrs, ChunkSize, DvOk;
    if a in h.tree.Binned() {
      TB.TreeChecksPass(h.head, h.tree.link, h.tree.treebins, BitsOf(h.tree.treemap), h.tree.trees, h.tree.binsAt,
          h.tree.least, a);
    }
    if a in h.small.Binned() {
      var i :| 0 <= i < |h.small.bins| && a in h.small.bins[i];
      SB.SizeInBin(h.head, h.small.link, BitsOf(h.small.smallmap), h.small.bins, h.small.binsAt, h.small.least, i, a);
      SB.SmallChecksPass(h.head, h.small.link, BitsOf(h.small.smallmap), h.small.bins, h.small.binsAt, h.small.least, i,
          a);
    }
  }

  /** With nothing live the segment is one free chunk. */
  lemma AllFreed(h: Heap)
    requires h.Valid() && Live(h.cs) == {}
    ensures |h.cs| == 1 && h.cs[0].addr == h.base && End(h.cs[0]) == h.limit && h.cs[0].addr == h.top && h.dv == 0 &&
        h.small.Binned() == {} && h.tree.Binned() == {}
  {
    hide Tagged, SB.SmallOk, TB.BinsOk;
    SomeLive(h.cs);
    assert Frees(h.cs) == {h.top} by { Only(h.cs[0]); }
  }

  lemma SomeLive(cs: seq<Chunk>)
    requires Tiled(cs) && |cs| > 0
    ensures Live(cs) == {} ==> |cs| == 1
  {
    if |cs| > 1 {
      assert Adjacent(cs[0], cs[1]);
      assert cs[0] in cs && cs[1] in cs;
      assert cs[0] in Live(cs) || cs[1] in Live(cs);
    }
  }

  /** What a program may ask for.  It names its blocks by their position in the list of pointers it holds. */
  datatype Call =
    | CallMalloc(bytes: nat)
    | CallFree(i: nat)
    | CallRealloc(i: nat, bytes: nat)
    | CallMemalign(alignment: nat, bytes: nat)

  /** The program's pointers are exactly the payloads of the live chunks, each held once. */
  ghost predicate Holds(live: set<Chunk>, ps: seq<Addr>) {
    && (forall i | 0 <= i < |ps| :: ps[i] > 0 && IsPayload(live, ps[i]))
    && (forall i, j | 0 <= i < j < |ps| :: ps[i] != ps[j])
    && (forall c | c in live :: c.addr + 8 in ps)
  }

  lemma HoldsMore(cs: seq<Chunk>, live: set<Chunk>, ps: seq<Addr>, d: Chunk)
    requires Holds(live, ps) && d !in live && Live(cs) == live + {d} && Tiled(cs)
    ensures Holds(Live(cs), ps + [d.addr + 8])
  {
    forall i | 0 <= i < |ps| ensures IsPayload(Live(cs), ps[i]) && ps[i] != d.addr + 8 {
      var c := LiveChunk(live, ps[i]);
      ChunksDisjoint(cs, c, d);
    }
    assert d in Live(cs);
  }

  lemma HoldsLess(cs: seq<Chunk>, ps: seq<Addr>, i: nat)
    requires Holds(Live(cs), ps) && i < |ps| && Tiled(cs)
    ensures Holds(Live(cs) - {LiveChunk(Live(cs), ps[i])}, Without(ps, i))
  {
    hide Tiled, Live;
    var live, d, ps' := Live(cs), LiveChunk(Live(cs), ps[i]), Without(ps, i);
    WithoutDistinct(ps, i);
    hide Without;
    forall k | 0 <= k < |ps'| ensures ps'[k] > 0 && IsPayload(live - {d}, ps'[k]) {
      var c := LiveChunk(live, ps'[k]);
      assert c in live - {d};
    }
    hide IsPayload;
    forall c | c in live - {d} ensures c.addr + 8 in ps' {
      OneChunk(cs, c);
      WithoutKeeps(ps, i, c.addr + 8);
    }
  }

  /** Two of the program's blocks never overlap. */
  lemma HeldDisjoint(cs: seq<Chunk>, ps: seq<Addr>, i: nat, j: nat)
    requires Tiled(cs) && Holds(Live(cs), ps) && i < |ps| && j < |ps| && i != j
    ensures var c, d := LiveChunk(Live(cs), ps[i]), LiveChunk(Live(cs), ps[j]);
            ps[i] + Payload(c) <= ps[j] || ps[j] + Payload(d) <= ps[i]
  {
    var c, d := LiveChunk(Live(cs), ps[i]), LiveChunk(Live(cs), ps[j]);
    assert ps[i] != ps[j];
    PayloadsDisjoint(cs, c, d);
    assert forall k | 0 <= k < |cs| :: cs[k] in cs ==> ChunkOk(cs[k]);
  }

  /** A call of dlrealloc for the i-th pointer. */
  method StepRealloc(h: Heap, data: array<int>, i: nat, bytes: nat, grant: nat, ps: seq<Addr>) returns (ps': seq<Addr>)
    requires h.Valid() && Holds(Live(h.cs), ps) && i < |ps| && bytes < WORD && data.Length >= WORD
    requires grant % 8 == 0 && h.limit + grant + TOP_FOOT_SIZE <= WORD
    modifies h`head, h`foot, h`cs, h`dv, h`dvsize, h`top, h`topsize, h`limit, h.small, h.tree, data
    ensures h.Valid() && Holds(Live(h.cs), ps') && h.limit in {old(h.limit), old(h.limit) + grant}
  {
    hide Tagged, Tiled, Splice, TB.BinsOk, SB.SmallOk, Owners, Frees, Live, ChunkSize, SegmentOk, DvOk, TB.AllAddrs,
        SB.AllSmall, Request2Size, Allocated, Moved, Holds, IsPayload;
    ps' := ps;
    ghost var live := Live(h.cs);
    TiledOf(h.head, h.foot, h.cs);
    HeldPayload(live, ps, i);
    HoldsLess(h.cs, ps, i);
    ghost var c := LiveChunk(live, ps[i]);
    var r := Realloc(h, data, ps[i], bytes, grant);
    if r != 0 {
      ghost var d := NewChunk(live - {c}, Live(h.cs), r, Request2Size(bytes));
      TiledOf(h.head, h.foot, h.cs);
      HoldsMore(h.cs, live - {c}, Without(ps, i), d);
      ps' := Without(ps, i) + [r];
    } else if bytes == 0 {
      ps' := Without(ps, i);
    }
  }

  lemma HeldPayload(live: set<Chunk>, ps: seq<Addr>, i: nat)
    requires Holds(live, ps) && i < |ps|
    ensures ps[i] > 0 && IsPayload(live, ps[i])
  {
  }

  /** One call of the program; a null answer adds no pointer, an index out of range does nothing. */
  method Step(h: Heap, data: array<int>, call: Call, grant: nat, ps: seq<Addr>) returns (ps': seq<Addr>)
    requires h.Valid() && Holds(Live(h.cs), ps) && CallOk(call) && data.Length >= WORD
    requires grant % 8 == 0 && h.limit + grant + TOP_FOOT_SIZE <= WORD
    modifies h`head, h`foot, h`cs, h`dv, h`dvsize, h`top, h`topsize, h`limit, h.small, h.tree, data
    ensures h.Valid() && Holds(Live(h.cs), ps') && h.limit in {old(h.limit), old(h.limit) + grant}
  {
    hide Tagged, Tiled, Splice, TB.BinsOk, SB.SmallOk, Owners, Frees, Live, ChunkSize, SegmentOk, DvOk, TB.AllAddrs,
        SB.AllSmall, Request2Size, Allocated, Moved, Holds, IsPayload;
    ps' := ps;
    ghost var live := Live(h.cs);
    TiledOf(h.head, h.foot, h.cs);
    match call
    case CallMalloc(bytes) =>
      var r := h.Malloc(bytes, grant);
      if r != 0 {
        ghost var d := NewChunk(live, Live(h.cs), r, Request2Size(bytes));
        TiledOf(h.head, h.foot, h.cs);
        HoldsMore(h.cs, live, ps, d);
        ps' := ps + [r];
      }
    case CallFree(i) =>
      if i < |ps| {
        HeldPayload(live, ps, i);
        HoldsLess(h.cs, ps, i);
        h.Free(ps[i]);
        ps' := Without(ps, i);
      }
    case CallRealloc(i, bytes) =>
      if i < |ps| {
        ps' := StepRealloc(h, data, i, bytes, grant, ps);
      }
    case CallMemalign(alignment, bytes) =>
      var r, a := Memalign(h, alignment, bytes, grant);
      if r != 0 {
        ghost var d := AlignedChunk(live, Live(h.cs), r, Request2Size(bytes), a);
        TiledOf(h.head, h.foot, h.cs);
        HoldsMore(h.cs, live, ps, d);
        ps' := ps + [r];
      }
  }

  predicate CallOk(call: Call) {
    match call
    case CallMalloc(bytes) => bytes < WORD
    case CallFree(_) => true
    case CallRealloc(_, bytes) => bytes < WORD
    case CallMemalign(alignment, bytes) => alignment <= 0x8000_0000 && bytes < WORD
  }

  lemma AlignedChunk(live: set<Chunk>, live': set<Chunk>, mem: Addr, nb: nat, a: nat) returns (d: Chunk)
    requires AllocatedAligned(live, live', mem, nb, a)
    ensures d !in live && live' == live + {d} && d.addr + 8 == mem
  {
    d :| d !in live && live' == live + {d} && d.inuse && d.addr + 8 == mem && a > 0 && mem % a == 0 &&
        nb <= d.size <= nb + MIN_CHUNK_SIZE;
  }

  /** Any run of calls on a fresh heap: the invariant holds to the end, and the pointers held are the live chunks. */
  method Run(h: Heap, data: array<int>, calls: seq<Call>, grants: seq<nat>) returns (ps: seq<Addr>)
    requires h.Valid() && Live(h.cs) == {} && data.Length >= WORD && |grants| == |calls|
    requires forall i | 0 <= i < |calls| :: CallOk(calls[i])
    modifies h`head, h`foot, h`cs, h`dv, h`dvsize, h`top, h`topsize, h`limit, h.small, h.tree, data
    ensures h.Valid() && Holds(Live(h.cs), ps)
    ensures ps == [] ==> |h.cs| == 1 && h.cs[0].addr == h.base && End(h.cs[0]) == h.limit
  {
    hide Tagged, Tiled, Splice, TB.BinsOk, SB.SmallOk, Owners, Frees, Live, ChunkSize, SegmentOk, DvOk, TB.AllAddrs,
        SB.AllSmall;
    ps := [];
    for i := 0 to |calls|
      invariant h.Valid() && Holds(Live(h.cs), ps)
    {
      // MORECORE fails when the address space is used up
      var grant := if grants[i] % 8 == 0 && h.top + h.topsize + grants[i] + TOP_FOOT_SIZE <= WORD then grants[i] else 0;
      ps := Step(h, data, calls[i], grant, ps);
    }
    if ps == [] {
      assert Live(h.cs) == {};
      AllFreed(h);
    }
  }
}
