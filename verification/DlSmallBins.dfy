/**
  The 32 small bins: one circular doubly linked list per exact size, headed by a cell in
  the allocator's static state, with a bitmap of the non-empty bins.  The links of a header
  mean something only while its bin's bit is set.
 */
module DlSmallBins {
  import opened Seqs
  import opened DlBitmap
  import opened DlTrie

  const NSMALLBINS: nat := 32

  /** smallbin_at: the header of bin i, seen as a chunk, whose link words are the array's elements 2 * i + 2 and + 3. */
  function HeaderAt(binsAt: Addr, i: nat): Addr { binsAt + 8 * i }

  /** Bin i holds the chunks of `bin`, all of size 8 * i, on the ring of its header. */
  ghost predicate SmallBinOk(head: Heads, link: Links, marked: bool, bin: seq<Addr>, header: Addr, i: nat) {
    && Distinct(bin) && header !in bin && header in link
    && (marked <==> bin != [])
    && (marked ==> RingLinked(link, [header] + bin))
    && forall a | a in bin :: a in head && ChunkSize(head[a]) == 8 * i
  }

  ghost function AllSmall(bins: seq<seq<Addr>>): set<Addr> {
    set i, a | 0 <= i < |bins| && a in bins[i] :: a
  }

  ghost predicate Apart(bins: seq<seq<Addr>>) {
    forall i, j, a | 0 <= i < j < |bins| && a in bins[i] :: a !in bins[j]
  }

  ghost predicate SmallOk(head: Heads, link: Links, smallmap: BinMap, bins: seq<seq<Addr>>, binsAt: Addr, least: Addr) {
    && 0 < binsAt && binsAt + 8 * (NSMALLBINS + 1) <= least && |bins| == NSMALLBINS
    && (forall i | 0 <= i < NSMALLBINS :: SmallBinOk(head, link, smallmap[i], bins[i], HeaderAt(binsAt, i), i))
    && (forall i, a | 0 <= i < NSMALLBINS && a in bins[i] :: least <= a)
    && Apart(bins)
  }

  lemma SmallFrame(head: Heads, link: Links, link': Links, marked: bool, bin: seq<Addr>, header: Addr, i: nat,
      touched: set<Addr>)
    requires SmallBinOk(head, link, marked, bin, header, i) && SameExcept(link, link', touched)
    requires header !in touched && forall a | a in bin :: a !in touched
    ensures SmallBinOk(head, link', marked, bin, header, i)
  {
    assert forall a | a in [header] + bin :: a == header || a in bin;
  }

  /** Replacing one bin, with link writes confined to its header and its old and new chunks. */
  lemma UpdateSmall(head: Heads, link: Links, smallmap: BinMap, bins: seq<seq<Addr>>, binsAt: Addr, least: Addr,
                    i: nat, link': Links, smallmap': BinMap, bin: seq<Addr>, x: Addr)
    requires SmallOk(head, link, smallmap, bins, binsAt, least) && i < NSMALLBINS
    requires least <= x && forall j | 0 <= j < NSMALLBINS && j != i :: x !in bins[j]
    requires SameExcept(link, link', RingSet([HeaderAt(binsAt, i)] + bins[i]) + {x})
    requires smallmap' == smallmap[i := bin != []] && SmallBinOk(head, link', bin != [], bin, HeaderAt(binsAt, i), i)
    requires forall a | a in bin :: a == x || a in bins[i]
    ensures SmallOk(head, link', smallmap', bins[i := bin], binsAt, least)
  {
    var bins' := bins[i := bin];
    var touched := RingSet([HeaderAt(binsAt, i)] + bins[i]) + {x};
    forall j | 0 <= j < NSMALLBINS ensures SmallBinOk(head, link', smallmap'[j], bins'[j], HeaderAt(binsAt, j), j) {
      if j != i {
        assert forall a | a in [HeaderAt(binsAt, i)] + bins[i] :: a == HeaderAt(binsAt, i) || a in bins[i];
        SmallFrame(head, link, link', smallmap[j], bins[j], HeaderAt(binsAt, j), j, touched);
      }
    }
  }

  lemma SmallUpdated(bins: seq<seq<Addr>>, i: nat, bin: seq<Addr>)
    requires i < |bins| && Apart(bins)
    ensures AllSmall(bins[i := bin]) == AllSmall(bins) - RingSet(bins[i]) + RingSet(bin)
  {
    var bins' := bins[i := bin];
    forall a | a in AllSmall(bins) - RingSet(bins[i]) ensures a in AllSmall(bins') {
      var j :| 0 <= j < |bins| && a in bins[j];
      assert bins'[j] == bins[j];
    }
    forall a | a in RingSet(bin) ensures a in AllSmall(bins') { assert bins'[i] == bin; }
    forall a | a in AllSmall(bins') && a !in bin ensures a in AllSmall(bins) - RingSet(bins[i]) {
      var j :| 0 <= j < |bins| && a in bins'[j];
    }
  }

  /** The link writes of insert_small_chunk; f is the old first chunk, or the header of an empty bin. */
  function SmallInsertLinks(m: Links, b: Addr, f: Addr, x: Addr): Links
    requires b in m && f in m
  {
    var m1 := m[b := m[b].(fd := x)];
    m1[f := m1[f].(bk := x)][x := TLinks(f, b, 0, 0, 0, 0)]
  }

  lemma SmallInsertOk(head: Heads, link: Links, marked: bool, bin: seq<Addr>, b: Addr, i: nat, x: Addr)
    requires SmallBinOk(head, link, marked, bin, b, i) && x !in bin && x != b && x in head &&
        ChunkSize(head[x]) == 8 * i
    ensures marked ==> link[b].fd in link && link[b].fd in bin
    ensures SmallBinOk(head, SmallInsertLinks(link, b, if marked then link[b].fd else b, x), true, [x] + bin, b, i)
  {
    var ring := [b] + bin;
    if marked {
      JoinRingLinked(link, ring, x, 0);
      assert Follows(0, 1, |ring|);
      assert [ring[0], x] + ring[1..] == [b] + ([x] + bin);
      assert SmallInsertLinks(link, b, link[b].fd, x) == InsertLinks(link, Join(b), x, 0);
    }
  }

  lemma LeavesBin(bin: seq<Addr>, j: nat)
    requires j < |bin| && Distinct(bin)
    ensures Distinct(Without(bin, j)) && RingSet(Without(bin, j)) == RingSet(bin) - {bin[j]}
  {
    assert bin == bin[..j] + [bin[j]] + bin[j + 1..];
    forall a | a in RingSet(bin) - {bin[j]} ensures a in Without(bin, j) {
      var k := IndexOf(bin, a);
      assert Without(bin, j)[if k < j then k else k - 1] == a;
    }
  }

  lemma SmallEnds(link: Links, bin: seq<Addr>, b: Addr, j: nat)
    requires Distinct(bin) && b !in bin && RingLinked(link, [b] + bin) && j < |bin|
    ensures Distinct([b] + bin) && bin[j] in link && link[bin[j]].fd in link && link[bin[j]].bk in link
    ensures link[bin[j]].fd in [b] + bin && link[bin[j]].bk in [b] + bin
    ensures link[bin[j]].fd == link[bin[j]].bk <==> |bin| == 1
    ensures j == 0 ==> link[b].fd == bin[0] && link[bin[0]].bk == b
  {
    var ring := [b] + bin;
    var n := |ring|;
    assert ring[j + 1] == bin[j];
    assert Follows(j, j + 1, n) && Follows(j + 1, if j + 2 == n then 0 else j + 2, n);
  }

  /** Unlinking: the last chunk of a bin leaves the links alone, any other closes the gap. */
  lemma SmallUnlinkOk(head: Heads, link: Links, bin: seq<Addr>, b: Addr, i: nat, j: nat)
    requires SmallBinOk(head, link, true, bin, b, i) && j < |bin|
    ensures bin[j] in link && link[bin[j]].fd in link && link[bin[j]].bk in link
    ensures link[bin[j]].fd == link[bin[j]].bk <==> |bin| == 1
    ensures j == 0 ==> link[b].fd == bin[0] && link[bin[0]].bk == b
    ensures |bin| > 1 ==> SmallBinOk(head, RingOutLinks(link, bin[j]), true, Without(bin, j), b, i)
    ensures |bin| > 1 ==> SameExcept(link, RingOutLinks(link, bin[j]), RingSet([b] + bin))
    ensures link[bin[j]].fd == b || link[bin[j]].fd in bin
    ensures link[bin[j]].bk == b || link[bin[j]].bk in bin
  {
    SmallEnds(link, bin, b, j);
    if |bin| > 1 {
      hide Follows;
      var ring := [b] + bin;
      assert ring[j + 1] == bin[j];
      LeavesBin(bin, j);
      RingOutLinked(link, ring, j + 1);
      assert DropAt(ring, j + 1) == [b] + Without(bin, j);
      assert forall a | a in Without(bin, j) :: a in RingSet(Without(bin, j));
    }
  }

  /** The checks on the links of chunk a of bin i, and on those of the bin's header, pass. */
  lemma SmallChecksPass(head: Heads, link: Links, smallmap: BinMap, bins: seq<seq<Addr>>, binsAt: Addr, least: Addr,
      i: nat, a: Addr)
    requires SmallOk(head, link, smallmap, bins, binsAt, least) && i < NSMALLBINS && a in bins[i]
    ensures a in link && OkAddress(least, a)
    ensures link[a].fd == HeaderAt(binsAt, i) || OkAddress(least, link[a].fd)
    ensures link[a].bk == HeaderAt(binsAt, i) || OkAddress(least, link[a].bk)
    ensures HeaderAt(binsAt, i) in link && OkAddress(least, link[HeaderAt(binsAt, i)].fd)
  {
    SmallUnlinkOk(head, link, bins[i], HeaderAt(binsAt, i), i, IndexOf(bins[i], a));
    SmallUnlinkOk(head, link, bins[i], HeaderAt(binsAt, i), i, 0);
    assert bins[i][0] in bins[i];
  }

  lemma SizeInBin(head: Heads, link: Links, smallmap: BinMap, bins: seq<seq<Addr>>, binsAt: Addr, least: Addr, i: nat,
      a: Addr)
    requires SmallOk(head, link, smallmap, bins, binsAt, least) && i < |bins| && a in bins[i]
    ensures |bins| == NSMALLBINS && a in head && ChunkSize(head[a]) == 8 * i
  {
  }

  class SmallBins {
    var link: Links
    var smallmap: bv32
    ghost var bins: seq<seq<Addr>>
    const binsAt: Addr
    const least: Addr

    ghost predicate Valid(head: Heads)
      reads this
    {
      SmallOk(head, link, BitsOf(smallmap), bins, binsAt, least)
    }

    ghost function Binned(): set<Addr>
      reads this
    {
      AllSmall(bins)
    }

    /** init_bins: every header linked to itself, no bit set. */
    constructor (binsAt: Addr, least: Addr)
      requires 0 < binsAt && binsAt + 8 * (NSMALLBINS + 1) <= least
      ensures forall head :: Valid(head)
      ensures Binned() == {} && this.binsAt == binsAt && this.least == least
    {
      this.binsAt, this.least := binsAt, least;
      link := map i | 0 <= i < NSMALLBINS :: HeaderAt(binsAt, i) :=
          TLinks(HeaderAt(binsAt, i), HeaderAt(binsAt, i), 0, 0, 0, 0);
      smallmap := 0;
      bins := seq(NSMALLBINS, _ => []);
      NoMarks();
    }

    /** insert_small_chunk. */
    method InsertSmall(head: Heads, x: Addr, s: nat)
      requires Valid(head) && x in head && ChunkSize(head[x]) == s && s % 8 == 0 && s < 8 * NSMALLBINS
      requires least <= x && x !in Binned()
      modifies this
      ensures Valid(head) && Binned() == old(Binned()) + {x}
      ensures |old(bins)| == NSMALLBINS && bins == old(bins)[s / 8 := [x] + old(bins)[s / 8]]
    {
      hide Marked, Mark, BitsOf;
      var i := s / 8;
      var b := HeaderAt(binsAt, i);
      ghost var bin, marks := bins[i], BitsOf(smallmap);
      assert forall j | 0 <= j < NSMALLBINS :: x !in bins[j];
      SmallInsertOk(head, link, marks[i], bin, b, i, x);
      ghost var link' := SmallInsertLinks(link, b, if marks[i] then link[b].fd else b, x);
      UpdateSmall(head, link, marks, bins, binsAt, least, i, link', marks[i := true], [x] + bin, x);
      SmallUpdated(bins, i, [x] + bin);
      MarkBits(smallmap, i);
      var f := b;
      if !Marked(smallmap, i) {
        smallmap := Mark(smallmap, i);
      } else {
        assert OkAddress(least, link[b].fd);
        f := link[b].fd;
        assert marks[i := true] == marks;
      }
      link := link[b := link[b].(fd := x)];
      link := link[f := link[f].(bk := x)];
      link := link[x := TLinks(f, b, 0, 0, 0, 0)];
      bins := bins[i := [x] + bin];
    }

    /** unlink_small_chunk; s is the chunk's size. */
    method UnlinkSmall(head: Heads, x: Addr, s: nat)
      requires Valid(head) && x in Binned() && x in head && s == ChunkSize(head[x])
      modifies this
      ensures Valid(head) && Binned() == old(Binned()) - {x}
    {
      hide RingLinked, Marked, Clear, BitsOf;
      var i := s / 8;
      assert x in bins[i];
      ghost var bin, j, marks := bins[i], IndexOf(bins[i], x), BitsOf(smallmap);
      SmallUnlinkOk(head, link, bin, HeaderAt(binsAt, i), i, j);
      LeavesBin(bin, j);
      SmallUpdated(bins, i, Without(bin, j));
      MarkBits(smallmap, i);
      var f, b := link[x].fd, link[x].bk;
      if f == b {
        assert bin == [x] && Without(bin, j) == [];
        UpdateSmall(head, link, marks, bins, binsAt, least, i, link, marks[i := false], [], x);
        smallmap := Clear(smallmap, i);
      } else {
        assert f == HeaderAt(binsAt, i) || OkAddress(least, f);
        assert b == HeaderAt(binsAt, i) || OkAddress(least, b);
        UpdateSmall(head, link, marks, bins, binsAt, least, i, RingOutLinks(link, x), marks, Without(bin, j), x);
        link := link[f := link[f].(bk := b)];
        link := link[b := link[b].(fd := f)];
      }
      bins := bins[i := Without(bin, j)];
    }

    /** p = b->fd; unlink_first_small_chunk: take the most recently inserted chunk of bin i. */
    method UnlinkFirst(head: Heads, i: nat) returns (p: Addr)
      requires Valid(head) && i < NSMALLBINS && BitsOf(smallmap)[i]
      modifies this
      ensures Valid(head) && p in old(Binned()) && Binned() == old(Binned()) - {p}
      ensures least <= p && p in head && ChunkSize(head[p]) == 8 * i
      ensures |old(bins)| == NSMALLBINS && |old(bins)[i]| > 0 && p == old(bins)[i][0]
      ensures bins == old(bins)[i := Without(old(bins)[i], 0)]
    {
      hide RingLinked, Marked, Clear, BitsOf;
      ghost var bin, marks := bins[i], BitsOf(smallmap);
      var b := HeaderAt(binsAt, i);
      SmallUnlinkOk(head, link, bin, b, i, 0);
      LeavesBin(bin, 0);
      SmallUpdated(bins, i, Without(bin, 0));
      MarkBits(smallmap, i);
      p := link[b].fd;
      var f := link[p].fd;
      assert p in bins[i];
      if b == f {
        assert bin == [p] && Without(bin, 0) == [];
        UpdateSmall(head, link, marks, bins, binsAt, least, i, link, marks[i := false], [], p);
        smallmap := Clear(smallmap, i);
      } else {
        assert OkAddress(least, f);
        UpdateSmall(head, link, marks, bins, binsAt, least, i, RingOutLinks(link, p), marks, Without(bin, 0), p);
        ghost var link' := RingOutLinks(link, p);
        link := link[b := link[b].(fd := f)];
        link := link[f := link[f].(bk := b)];
        assert link == link';
      }
      bins := bins[i := Without(bin, 0)];
    }
  }
}
