/**
  The heap segment as a row of chunks with boundary tags.  A head word holds the chunk's
  size and two bits: is this chunk in use, is the chunk before it in use.  A free chunk
  repeats its size in the prev_foot word of the chunk after it.  The last chunk is top.
 */
module DlTags {
  import opened Arith
  import opened DlTrie

  const PINUSE_BIT: nat := 1
  const CINUSE_BIT: nat := 2
  const TOP_FOOT_SIZE: nat := 40

  datatype Chunk = Chunk(addr: Addr, size: nat, inuse: bool)

  function End(c: Chunk): Addr { c.addr + c.size }

  /** The head word of c; pin says whether the chunk before it is in use. */
  function Word(c: Chunk, pin: bool): nat {
    c.size + (if c.inuse then CINUSE_BIT else 0) + (if pin then PINUSE_BIT else 0)
  }

  predicate ChunkOk(c: Chunk) {
    0 < c.addr && c.addr % 8 == 0 && c.size % 8 == 0 && c.size > 0
  }

  /** b starts where a ends, and they are not both free. */
  predicate Adjacent(a: Chunk, b: Chunk) {
    End(a) == b.addr && (a.inuse || b.inuse)
  }

  /** Chunks laid end to end, no two neighbours free. */
  ghost predicate Tiled(cs: seq<Chunk>) {
    && (forall i | 0 <= i < |cs| :: ChunkOk(cs[i]))
    && (forall i, j | 0 <= i < |cs| && 0 <= j < |cs| && j == i + 1 :: Adjacent(cs[i], cs[j]))
  }

  /** The tag words agree with the chunks, the first of which follows a chunk in use iff pin. */
  ghost predicate Tagged(head: Heads, foot: Heads, cs: seq<Chunk>, pin: bool) {
    && (forall i | 0 <= i < |cs| :: cs[i].addr in head)
    && (cs != [] ==> head[cs[0].addr] == Word(cs[0], pin))
    && (forall i, j | 0 <= i < |cs| && 0 <= j < |cs| && j == i + 1 ::
          && head[cs[j].addr] == Word(cs[j], cs[i].inuse)
          && (!cs[i].inuse ==> cs[j].addr in foot && foot[cs[j].addr] == cs[i].size))
  }

  lemma {:induction false} Ordered(cs: seq<Chunk>, i: nat, j: nat)
    requires Tiled(cs) && i < j < |cs|
    ensures End(cs[i]) <= cs[j].addr
    decreases j
  {
    if j > i + 1 {
      Ordered(cs, i, j - 1);
      assert Adjacent(cs[j - 1], cs[j]);
    } else {
      assert Adjacent(cs[i], cs[j]);
    }
  }

  /** Replacing the chunks k..m by others that cover the same addresses. */
  ghost function Splice(cs: seq<Chunk>, k: nat, m: nat, mid: seq<Chunk>): seq<Chunk>
    requires k <= m <= |cs|
  {
    cs[..k] + mid + cs[m..]
  }

  /** mid covers exactly the addresses of cs[k..m] and can stand between their neighbours. */
  ghost predicate Covers(cs: seq<Chunk>, k: nat, m: nat, mid: seq<Chunk>) {
    && k < m <= |cs| && mid != []
    && mid[0].addr == cs[k].addr && End(mid[|mid| - 1]) == End(cs[m - 1])
    && (k > 0 ==> cs[k - 1].inuse || mid[0].inuse)
    && (m < |cs| ==> mid[|mid| - 1].inuse || cs[m].inuse)
  }

  lemma SpliceAt(cs: seq<Chunk>, k: nat, m: nat, mid: seq<Chunk>, i: nat)
    requires k <= m <= |cs| && i < |Splice(cs, k, m, mid)|
    ensures Splice(cs, k, m, mid)[i] ==
              if i < k then cs[i] else if i < k + |mid| then mid[i - k] else cs[i - |mid| - k + m]
  {
  }

  lemma SpliceTiled(cs: seq<Chunk>, k: nat, m: nat, mid: seq<Chunk>)
    requires Tiled(cs) && Tiled(mid) && Covers(cs, k, m, mid)
    ensures Tiled(Splice(cs, k, m, mid))
  {
    var cs' := Splice(cs, k, m, mid);
    forall i, j | 0 <= i < |cs'| && 0 <= j < |cs'| && j == i + 1
      ensures Adjacent(cs'[i], cs'[j]) && ChunkOk(cs'[i]) && ChunkOk(cs'[j])
    {
      SpliceAt(cs, k, m, mid, i);
      SpliceAt(cs, k, m, mid, j);
      if j == k {
        assert Adjacent(cs[k - 1], cs[k]);
      } else if i >= k && j == k + |mid| {
        assert Adjacent(cs[m - 1], cs[m]);
      } else if i >= k + |mid| {
        assert Adjacent(cs[i - |mid| - k + m], cs[j - |mid| - k + m]);
      }
    }
    forall i | 0 <= i < |cs'| ensures ChunkOk(cs'[i]) { SpliceAt(cs, k, m, mid, i); }
  }

  /** The new tag words: right inside mid and just after it, unchanged everywhere else. */
  ghost predicate Retagged(head: Heads, foot: Heads, head': Heads, foot': Heads, cs: seq<Chunk>, k: nat, m: nat,
      mid: seq<Chunk>) {
    && k < m <= |cs| && mid != []
    && Tagged(head', foot', mid, k == 0 || cs[k - 1].inuse)
    && (forall i | 0 <= i < |cs| && (i < k || i > m) ::
          && cs[i].addr in head' && cs[i].addr in head && head'[cs[i].addr] == head[cs[i].addr]
          && (cs[i].addr in foot ==> cs[i].addr in foot' && foot'[cs[i].addr] == foot[cs[i].addr]))
    && (cs[k].addr in foot ==> cs[k].addr in foot' && foot'[cs[k].addr] == foot[cs[k].addr])
    && (m < |cs| ==>
          && cs[m].addr in head' && head'[cs[m].addr] == Word(cs[m], mid[|mid| - 1].inuse)
          && (!mid[|mid| - 1].inuse ==> cs[m].addr in foot' && foot'[cs[m].addr] == mid[|mid| - 1].size))
  }

  lemma SpliceTagged(head: Heads, foot: Heads, head': Heads, foot': Heads, cs: seq<Chunk>, k: nat, m: nat,
      mid: seq<Chunk>)
    requires Tagged(head, foot, cs, true) && Covers(cs, k, m, mid)
    requires Retagged(head, foot, head', foot', cs, k, m, mid)
    ensures Tagged(head', foot', Splice(cs, k, m, mid), true)
  {
    var cs' := Splice(cs, k, m, mid);
    forall i | 0 <= i < |cs'| ensures cs'[i].addr in head' { SpliceAt(cs, k, m, mid, i); }
    forall i, j | 0 <= i < |cs'| && 0 <= j < |cs'| && j == i + 1
      ensures head'[cs'[j].addr] == Word(cs'[j], cs'[i].inuse)
      ensures !cs'[i].inuse ==> cs'[j].addr in foot' && foot'[cs'[j].addr] == cs'[i].size
    {
      SpliceAt(cs, k, m, mid, i);
      SpliceAt(cs, k, m, mid, j);
    }
    SpliceAt(cs, k, m, mid, 0);
  }

  /* ---- Whole segment ---- */

  ghost function Last(cs: seq<Chunk>): Chunk
    requires cs != []
  {
    cs[|cs| - 1]
  }

  /** A well-formed segment whose last chunk is top; other chunks hold at least 16 bytes. */
  ghost predicate SegmentOk(head: Heads, foot: Heads, cs: seq<Chunk>) {
    && cs != [] && Tiled(cs) && Tagged(head, foot, cs, true)
    && !Last(cs).inuse && (forall i | 0 <= i < |cs| - 1 :: cs[i].size >= 16)
  }

  /** Addresses of the free chunks, top included. */
  ghost function Frees(cs: seq<Chunk>): set<Addr> {
    set c | c in cs && !c.inuse :: c.addr
  }

  /** The chunks handed out to the program. */
  ghost function Live(cs: seq<Chunk>): set<Chunk> {
    set c | c in cs && c.inuse
  }

  /** Two chunks of a segment do not overlap. */
  lemma ChunksDisjoint(cs: seq<Chunk>, c: Chunk, d: Chunk)
    requires Tiled(cs) && c in cs && d in cs && c != d
    ensures End(c) <= d.addr || End(d) <= c.addr
  {
    var i :| 0 <= i < |cs| && cs[i] == c;
    var j :| 0 <= j < |cs| && cs[j] == d;
    if i < j { Ordered(cs, i, j); } else { Ordered(cs, j, i); }
  }

  lemma AddrsDiffer(cs: seq<Chunk>, i: nat, j: nat)
    requires Tiled(cs) && i < |cs| && j < |cs| && i != j
    ensures cs[i].addr != cs[j].addr
  {
    if i < j { Ordered(cs, i, j); } else { Ordered(cs, j, i); }
  }

  /** Position of the chunk at address a. */
  ghost function ChunkAt(cs: seq<Chunk>, a: Addr): (k: nat)
    requires exists c :: c in cs && c.addr == a
    ensures k < |cs| && cs[k].addr == a
  {
    var c :| c in cs && c.addr == a;
    var k :| 0 <= k < |cs| && cs[k] == c;
    k
  }

  lemma FreeAt(cs: seq<Chunk>, a: Addr)
    requires Tiled(cs) && a in Frees(cs)
    ensures exists c :: c in cs && c.addr == a
    ensures !cs[ChunkAt(cs, a)].inuse
  {
    var i :| 0 <= i < |cs| && !cs[i].inuse && cs[i].addr == a;
    assert cs[i] in cs;
    var k := ChunkAt(cs, a);
    if i != k { AddrsDiffer(cs, i, k); }
  }

  /** A splice removes exactly the replaced chunks and adds exactly the new ones. */
  lemma SpliceSets(cs: seq<Chunk>, k: nat, m: nat, mid: seq<Chunk>)
    requires Tiled(cs) && k < m <= |cs|
    ensures Live(Splice(cs, k, m, mid)) == Live(cs) - Live(cs[k..m]) + Live(mid)
    ensures Frees(Splice(cs, k, m, mid)) == Frees(cs) - Frees(cs[k..m]) + Frees(mid)
  {
    var cs' := Splice(cs, k, m, mid);
    assert cs == cs[..k] + cs[k..m] + cs[m..];
    forall c, d | (c in cs[..k] || c in cs[m..]) && d in cs[k..m] ensures c.addr != d.addr {
      var i :| k <= i < m && cs[i] == d;
      var j :| (0 <= j < k || m <= j < |cs|) && cs[j] == c;
      AddrsDiffer(cs, i, j);
    }
    SetsOf(cs, cs[..k], cs[k..m], cs[m..]);
    SetsOf(cs', cs[..k], mid, cs[m..]);
  }

  lemma SetsOf(cs: seq<Chunk>, a: seq<Chunk>, b: seq<Chunk>, c: seq<Chunk>)
    requires cs == a + b + c
    ensures Live(cs) == Live(a) + Live(b) + Live(c)
    ensures Frees(cs) == Frees(a) + Frees(b) + Frees(c)
  {
    forall x | x in Frees(a) + Frees(b) + Frees(c) ensures x in Frees(cs) {
      var y :| (y in a || y in b || y in c) && !y.inuse && y.addr == x;
      assert y in cs;
    }
  }

  /* ---- The tag writes of the allocator ---- */

  /** head |= PINUSE_BIT and head &= ~PINUSE_BIT. */
  function SetPin(w: nat): nat { if w % 2 == 0 then w + PINUSE_BIT else w }
  function ClearPin(w: nat): nat { w - w % 2 }

  /** A head word read at an address that may hold anything. */
  function WordAt(head: Heads, a: Addr): nat { if a in head then head[a] else 0 }

  /** No word outside lo..hi has changed. */
  ghost predicate SameOutside(w: Heads, w': Heads, lo: Addr, hi: Addr) {
    forall a | a in w && (a < lo || a > hi) :: a in w' && w'[a] == w[a]
  }

  lemma SpliceShape(cs: seq<Chunk>, k: nat, m: nat, mid: seq<Chunk>)
    requires cs != [] && k < m <= |cs| && mid != []
    requires !Last(cs).inuse && forall i | 0 <= i < |cs| - 1 :: cs[i].size >= 16
    requires forall i | 0 <= i < |mid| - 1 :: mid[i].size >= 16
    requires if m == |cs| then !Last(mid).inuse else Last(mid).size >= 16
    ensures var cs' := Splice(cs, k, m, mid);
            && cs' != [] && !Last(cs').inuse && (forall i | 0 <= i < |cs'| - 1 :: cs'[i].size >= 16)
            && Last(cs') == if m == |cs| then Last(mid) else Last(cs)
  {
    var cs' := Splice(cs, k, m, mid);
    forall i | 0 <= i < |cs'|
      ensures cs'[i] == if i < k then cs[i] else if i < k + |mid| then mid[i - k] else cs[i - |mid| - k + m]
    {
      SpliceAt(cs, k, m, mid, i);
    }
  }

  /** The new words of mid, and of the chunk after it. */
  ghost predicate NewTags(head': Heads, foot': Heads, cs: seq<Chunk>, k: nat, m: nat, mid: seq<Chunk>) {
    && k < m <= |cs| && mid != []
    && Tagged(head', foot', mid, k == 0 || cs[k - 1].inuse)
    && (m < |cs| ==>
          && cs[m].addr in head' && head'[cs[m].addr] == Word(cs[m], Last(mid).inuse)
          && (!Last(mid).inuse ==> cs[m].addr in foot' && foot'[cs[m].addr] == Last(mid).size))
  }

  /** Sizes and place of mid in the segment. */
  ghost predicate GoodParts(cs: seq<Chunk>, k: nat, m: nat, mid: seq<Chunk>) {
    && Covers(cs, k, m, mid) && Tiled(mid)
    && (forall i | 0 <= i < |mid| - 1 :: mid[i].size >= 16)
    && if m == |cs| then !Last(mid).inuse else Last(mid).size >= 16
  }

  /** Tag writes confined to the block of cs[k..m] and the words just after it keep the segment well formed. */
  lemma Resplice(head: Heads, foot: Heads, cs: seq<Chunk>, k: nat, m: nat, mid: seq<Chunk>, head': Heads, foot': Heads)
    requires SegmentOk(head, foot, cs) && GoodParts(cs, k, m, mid) && NewTags(head', foot', cs, k, m, mid)
    requires SameOutside(head, head', cs[k].addr, End(cs[m - 1]))
    requires SameOutside(foot, foot', cs[k].addr + 1, End(cs[m - 1]))
    ensures SegmentOk(head', foot', Splice(cs, k, m, mid))
    ensures Last(Splice(cs, k, m, mid)) == if m == |cs| then Last(mid) else Last(cs)
  {
    forall i | 0 <= i < |cs| && (i < k || i > m) ensures cs[i].addr < cs[k].addr || cs[i].addr > End(cs[m - 1]) {
      if i < k {
        Ordered(cs, i, k);
      } else {
        Ordered(cs, m, i);
        Ordered(cs, m - 1, m);
      }
    }
    SpliceTiled(cs, k, m, mid);
    SpliceTagged(head, foot, head', foot', cs, k, m, mid);
    SpliceShape(cs, k, m, mid);
  }

  lemma PinBits(c: Chunk, pin: bool)
    requires ChunkOk(c)
    ensures SetPin(Word(c, pin)) == Word(c, true) && ClearPin(Word(c, pin)) == Word(c, false)
    ensures Word(c, pin) % 2 == if pin then 1 else 0
    ensures ChunkSize(Word(c, pin)) == c.size
  {
    var q := c.size / 8;
    assert c.size == 4 * (2 * q);
    var b := (if c.inuse then 2 else 0) + (if pin then 1 else 0);
    LowBits(2 * q, b);
  }

  lemma LowBits(q: nat, b: nat)
    requires b < 4
    ensures (4 * q + b) % 4 == b && (4 * q + b) % 2 == b % 2
  {
    Quotient(4 * q + b, 4, q, b);
    Quotient(4 * q + b, 2, 2 * q + b / 2, b % 2);
  }

  lemma PairOk(head: Heads, foot: Heads, a: Chunk, b: Chunk, pin: bool)
    requires ChunkOk(a) && ChunkOk(b) && Adjacent(a, b) && a.inuse
    requires a.addr in head && head[a.addr] == Word(a, pin) && b.addr in head && head[b.addr] == Word(b, true)
    ensures Tiled([a, b]) && Tagged(head, foot, [a, b], pin)
  {
  }

  lemma OneOk(head: Heads, foot: Heads, a: Chunk, pin: bool)
    requires ChunkOk(a) && a.addr in head && head[a.addr] == Word(a, pin)
    ensures Tiled([a]) && Tagged(head, foot, [a], pin)
  {
  }

  /** What the tags of chunk k and of its neighbours say. */
  lemma Neighbours(head: Heads, foot: Heads, cs: seq<Chunk>, k: nat)
    requires SegmentOk(head, foot, cs) && k < |cs|
    ensures ChunkOk(cs[k]) && cs[k].addr in head && head[cs[k].addr] == Word(cs[k], k == 0 || cs[k - 1].inuse)
    ensures k > 0 ==> Adjacent(cs[k - 1], cs[k]) && ChunkOk(cs[k - 1])
    ensures k > 0 && !cs[k - 1].inuse ==> cs[k].addr in foot && foot[cs[k].addr] == cs[k - 1].size
    ensures k + 1 < |cs| ==> Adjacent(cs[k], cs[k + 1]) && ChunkOk(cs[k + 1]) && cs[k].size >= 16
    ensures k + 1 < |cs| ==> cs[k + 1].addr in head && head[cs[k + 1].addr] == Word(cs[k + 1], cs[k].inuse)
    ensures !cs[k].inuse && k > 0 ==> cs[k - 1].inuse
  {
  }

  /** set_inuse_and_pinuse on a free chunk: it is handed out whole. */
  lemma TakeOk(head: Heads, foot: Heads, cs: seq<Chunk>, k: nat, head': Heads)
    requires SegmentOk(head, foot, cs) && k < |cs| - 1 && !cs[k].inuse
    requires head' == head[cs[k].addr := cs[k].size + 3][End(cs[k]) := SetPin(WordAt(head, End(cs[k])))]
    ensures SegmentOk(head', foot, Splice(cs, k, k + 1, [cs[k].(inuse := true)]))
    ensures Last(Splice(cs, k, k + 1, [cs[k].(inuse := true)])) == Last(cs)
  {
    hide Tiled, Tagged, Splice;
    Neighbours(head, foot, cs, k);
    PinBits(cs[k + 1], false);
    hide SetPin;
    OneOk(head', foot, cs[k].(inuse := true), true);
    Resplice(head, foot, cs, k, k + 1, [cs[k].(inuse := true)], head', foot);
  }

  /** The two parts of a chunk cut at offset nb. */
  ghost function CutAt(c: Chunk, nb: nat, second: bool): seq<Chunk>
    requires nb < c.size
  {
    [Chunk(c.addr, nb, true), Chunk(c.addr + nb, c.size - nb, second)]
  }

  /** Splitting a free chunk (or top, which has no foot): the first nb bytes are handed out. */
  lemma SplitOk(head: Heads, foot: Heads, cs: seq<Chunk>, k: nat, nb: nat, head': Heads, foot': Heads)
    requires SegmentOk(head, foot, cs) && k < |cs| && !cs[k].inuse && nb % 8 == 0 && 16 <= nb < cs[k].size
    requires k < |cs| - 1 ==> cs[k].size - nb >= 16
    requires head' == head[cs[k].addr := nb + 3][cs[k].addr + nb := cs[k].size - nb + 1]
    requires foot' == if k < |cs| - 1 then foot[End(cs[k]) := cs[k].size - nb] else foot
    ensures SegmentOk(head', foot', Splice(cs, k, k + 1, CutAt(cs[k], nb, false)))
    ensures Last(Splice(cs, k, k + 1, CutAt(cs[k], nb, false))) ==
              if k == |cs| - 1 then Chunk(cs[k].addr + nb, cs[k].size - nb, false) else Last(cs)
  {
    hide Tiled, Tagged, Splice;
    Neighbours(head, foot, cs, k);
    var mid := CutAt(cs[k], nb, false);
    Mod8(cs[k].addr, nb);
    Mod8(cs[k].size, nb);
    assert ChunkOk(mid[0]) && ChunkOk(mid[1]);
    hide ChunkOk;
    PairOk(head', foot', mid[0], mid[1], true);
    Resplice(head, foot, cs, k, k + 1, mid, head', foot');
  }

  /** Cutting a chunk in use in two chunks in use (set_inuse on both parts). */
  lemma CutOk(head: Heads, foot: Heads, cs: seq<Chunk>, k: nat, nb: nat, head': Heads)
    requires SegmentOk(head, foot, cs) && k < |cs| && cs[k].inuse && nb % 8 == 0 && 16 <= nb && nb + 16 <= cs[k].size
    requires head' == head[cs[k].addr := WordAt(head, cs[k].addr) % 2 + nb + 2][cs[k].addr + nb := cs[k].size - nb + 3]
    ensures SegmentOk(head', foot, Splice(cs, k, k + 1, CutAt(cs[k], nb, true)))
    ensures Last(Splice(cs, k, k + 1, CutAt(cs[k], nb, true))) == Last(cs)
  {
    hide Tiled, Tagged, Splice;
    Neighbours(head, foot, cs, k);
    PinBits(cs[k], k == 0 || cs[k - 1].inuse);
    Mod8(cs[k].addr, nb);
    Mod8(cs[k].size, nb);
    var mid := CutAt(cs[k], nb, true);
    assert ChunkOk(mid[0]) && ChunkOk(mid[1]);
    hide ChunkOk;
    PairOk(head', foot, mid[0], mid[1], k == 0 || cs[k - 1].inuse);
    Resplice(head, foot, cs, k, k + 1, mid, head', foot);
  }

  /** Moving the border between a chunk in use and top. */
  lemma ExpandOk(head: Heads, foot: Heads, cs: seq<Chunk>, k: nat, nb: nat, head': Heads)
    requires SegmentOk(head, foot, cs) && k == |cs| - 2 && cs[k].inuse && nb % 8 == 0 &&
        16 <= nb < cs[k].size + Last(cs).size
    requires head' == head[cs[k].addr := WordAt(head, cs[k].addr) % 2 + nb + 2][cs[k].addr + nb :=
        cs[k].size + Last(cs).size - nb + 1]
    ensures var whole := Chunk(cs[k].addr, cs[k].size + Last(cs).size, false);
            && SegmentOk(head', foot, Splice(cs, k, k + 2, CutAt(whole, nb, false)))
            && Last(Splice(cs, k, k + 2, CutAt(whole, nb, false))) == CutAt(whole, nb, false)[1]
  {
    hide Tiled, Tagged, Splice;
    Neighbours(head, foot, cs, k);
    PinBits(cs[k], k == 0 || cs[k - 1].inuse);
    var mid := CutAt(Chunk(cs[k].addr, cs[k].size + Last(cs).size, false), nb, false);
    Mod8(cs[k].addr, nb);
    Mod8(cs[k].size, Last(cs).size);
    Mod8(cs[k].size + Last(cs).size, nb);
    assert ChunkOk(mid[0]) && ChunkOk(mid[1]);
    hide ChunkOk;
    PairOk(head', foot, mid[0], mid[1], k == 0 || cs[k - 1].inuse);
    Resplice(head, foot, cs, k, k + 2, mid, head', foot);
  }

  /** Top gains g bytes at its end. */
  lemma GrowOk(head: Heads, foot: Heads, cs: seq<Chunk>, g: nat, head': Heads)
    requires SegmentOk(head, foot, cs) && g % 8 == 0
    requires head' == head[Last(cs).addr := Last(cs).size + g + 1]
    ensures SegmentOk(head', foot, cs[..|cs| - 1] + [Last(cs).(size := Last(cs).size + g)])
  {
    var k := |cs| - 1;
    var cs' := cs[..k] + [cs[k].(size := cs[k].size + g)];
    Neighbours(head, foot, cs, k);
    Mod8(cs[k].size, g);
    forall i | 0 <= i < k ensures cs[i].addr != cs[k].addr { AddrsDiffer(cs, i, k); }
    forall i, j | 0 <= i < |cs'| && 0 <= j < |cs'| && j == i + 1 ensures Adjacent(cs'[i], cs'[j]) {
      assert Adjacent(cs[i], cs[j]);
    }
  }

  /** The one free chunk that covers cs[k..m]. */
  ghost function Merged(cs: seq<Chunk>, k: nat, m: nat): Chunk
    requires k < m <= |cs| && cs[k].addr <= End(cs[m - 1])
  {
    Chunk(cs[k].addr, End(cs[m - 1]) - cs[k].addr, false)
  }

  lemma Mod8(a: int, b: int)
    requires a % 8 == 0 && b % 8 == 0
    ensures (a + b) % 8 == 0 && (a - b) % 8 == 0
  {
  }

  /** The merged chunk is well formed. */
  lemma MergedOk(cs: seq<Chunk>, k: nat, m: nat)
    requires k < m <= |cs| && m <= k + 3
    requires forall i | k <= i < m :: ChunkOk(cs[i]) && (i < |cs| - 1 ==> cs[i].size >= 16)
    requires forall i, j | k <= i < m && k <= j < m && j == i + 1 :: End(cs[i]) == cs[j].addr
    ensures cs[k].addr <= End(cs[m - 1]) && ChunkOk(Merged(cs, k, m)) &&
        (m < |cs| || m > k + 1 ==> Merged(cs, k, m).size >= 16)
    ensures Merged(cs, k, m).size == cs[k].size + (if m > k + 1 then cs[k + 1].size else 0) +
        (if m > k + 2 then cs[k + 2].size else 0)
  {
    Mod8(cs[m - 1].addr, cs[m - 1].size);
    if m > k + 1 { assert End(cs[k]) == cs[k + 1].addr; }
    if m > k + 2 { assert End(cs[k + 1]) == cs[k + 2].addr; }
    Mod8(End(cs[m - 1]), cs[k].addr);
  }

  /** Making one free chunk out of up to three neighbours that lie between chunks in use. */
  lemma MergeOk(head: Heads, foot: Heads, cs: seq<Chunk>, k: nat, m: nat, head': Heads, foot': Heads)
    requires SegmentOk(head, foot, cs) && k < m <= |cs| && m <= k + 3 && cs[k].addr <= End(cs[m - 1])
    requires (k > 0 ==> cs[k - 1].inuse) && (m < |cs| ==> cs[m].inuse)
    requires var c := Merged(cs, k, m);
             if m == |cs| then head' == head[c.addr := c.size + 1] && foot' == foot
             else
               && head' == head[End(c) := ClearPin(WordAt(head, End(c)))][c.addr := c.size + 1]
               && foot' == foot[End(c) := c.size]
    ensures SegmentOk(head', foot', Splice(cs, k, m, [Merged(cs, k, m)]))
    ensures Last(Splice(cs, k, m, [Merged(cs, k, m)])) == if m == |cs| then Merged(cs, k, m) else Last(cs)
    ensures Merged(cs, k, m).size == cs[k].size + (if m > k + 1 then cs[k + 1].size else 0) +
        (if m > k + 2 then cs[k + 2].size else 0)
  {
    hide Tiled, Tagged, Splice, ClearPin, ChunkOk;
    var c := Merged(cs, k, m);
    Row(head, foot, cs, k, m);
    MergedOk(cs, k, m);
    Neighbours(head, foot, cs, m - 1);
    if m < |cs| { PinBits(cs[m], cs[m - 1].inuse); }
    OneOk(head', foot', c, true);
    Resplice(head, foot, cs, k, m, [c], head', foot');
  }

  lemma Row(head: Heads, foot: Heads, cs: seq<Chunk>, k: nat, m: nat)
    requires SegmentOk(head, foot, cs) && k < m <= |cs|
    ensures forall i | k <= i < m :: ChunkOk(cs[i]) && (i < |cs| - 1 ==> cs[i].size >= 16)
    ensures forall i, j | k <= i < m && k <= j < m && j == i + 1 :: End(cs[i]) == cs[j].addr
  {
    assert forall i, j | k <= i < m && k <= j < m && j == i + 1 :: Adjacent(cs[i], cs[j]);
  }

  /** Free chunks elsewhere lie outside the block cs[k..m] and are not the chunk just after it. */
  lemma FreesOutside(cs: seq<Chunk>, k: nat, m: nat)
    requires Tiled(cs) && k < m <= |cs| && (m < |cs| ==> cs[m].inuse)
    ensures forall a | a in Frees(cs) - Frees(cs[k..m]) :: a < cs[k].addr || a > End(cs[m - 1])
  {
    forall a | a in Frees(cs) - Frees(cs[k..m]) ensures a < cs[k].addr || a > End(cs[m - 1]) {
      var i :| 0 <= i < |cs| && !cs[i].inuse && cs[i].addr == a;
      if k <= i < m { assert cs[i] in cs[k..m]; }
      if i < k {
        Ordered(cs, i, k);
      } else if i > m {
        Ordered(cs, m, i);
        Ordered(cs, m - 1, m);
      }
    }
  }

  /** The head word of a free chunk gives its size and says that it is free. */
  lemma FreeWord(head: Heads, foot: Heads, cs: seq<Chunk>, a: Addr)
    requires SegmentOk(head, foot, cs) && a in Frees(cs)
    ensures exists c :: c in cs && c.addr == a
    ensures var c := cs[ChunkAt(cs, a)];
            && !c.inuse && c.addr == a && a in head && ChunkSize(head[a]) == c.size && head[a] % 4 < 2
            && ChunkOk(c) && (ChunkAt(cs, a) == |cs| - 1 <==> a == Last(cs).addr)
  {
    FreeAt(cs, a);
    var k := ChunkAt(cs, a);
    Neighbours(head, foot, cs, k);
    PinBits(cs[k], k == 0 || cs[k - 1].inuse);
    if k < |cs| - 1 { AddrsDiffer(cs, k, |cs| - 1); }
  }
}
