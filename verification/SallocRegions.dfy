/** Several RAM regions side by side: an operation on one leaves the others, and every live payload, alone. */
module SallocRegions {
  import opened SallocChain
  import opened SallocOps

  /** Units [first, last) of RAM. */
  datatype Region = Region(first: nat, last: nat)

  /** Regions hold at least a guard at each end and one block, and do not overlap. */
  ghost predicate RegionsOk(regions: seq<Region>, len: nat) {
    && len <= MAX_UNITS
    && (forall r | 0 <= r < |regions| :: 0 < regions[r].first && regions[r].first + 3 <= regions[r].last <= len)
    && (forall r, s | 0 <= r < |regions| && 0 <= s < |regions| && r != s ::
          regions[r].last <= regions[s].first || regions[s].last <= regions[r].first)
  }

  ghost predicate AllGood(w: seq<Unit>, regions: seq<Region>, blocks: seq<seq<Block>>) {
    |blocks| == |regions| && forall r | 0 <= r < |regions| :: Good(w, blocks[r], regions[r].first, regions[r].last)
  }

  /** What the program holds in all regions. */
  ghost function LiveAll(blocks: seq<seq<Block>>): set<Payload> {
    set r, p | 0 <= r < |blocks| && p in LiveIn(blocks[r]) :: p
  }

  lemma GoodFrame(w: seq<Unit>, w': seq<Unit>, bs: seq<Block>, lo: nat, hi: nat)
    requires Good(w, bs, lo, hi) && |w'| == |w| && forall u | lo <= u < hi :: w'[u] == w[u]
    ensures Good(w', bs, lo, hi)
  {
    forall i, j | 0 <= i < |bs| && 0 <= j < |bs| && j == i + 1 ensures Linked(w', bs[i], bs[j]) {
      assert Linked(w, bs[i], bs[j]);
    }
  }

  ghost predicate Within(heads: set<nat>, g: Region) {
    forall h | h in heads :: g.first <= h < g.last
  }

  /** One region changes, the others stay good. */
  lemma OneRegion(w: seq<Unit>, w': seq<Unit>, regions: seq<Region>, blocks: seq<seq<Block>>, r: nat, bs': seq<Block>,
      heads: set<nat>)
    requires AllGood(w, regions, blocks) && RegionsOk(regions, |w|) && r < |regions|
    requires Good(w', bs', regions[r].first, regions[r].last) && HeadersOnly(w, w', heads) && Within(heads, regions[r])
    ensures AllGood(w', regions, blocks[r := bs'])
  {
    hide Good;
    forall s | 0 <= s < |regions| && s != r ensures Good(w', blocks[s], regions[s].first, regions[s].last) {
      forall u | regions[s].first <= u < regions[s].last ensures w'[u] == w[u] { assert u !in heads; }
      GoodFrame(w, w', blocks[s], regions[s].first, regions[s].last);
    }
  }

  lemma LiveBounds(w: seq<Unit>, bs: seq<Block>, lo: nat, hi: nat, p: Payload)
    requires Chain(w, bs, lo, hi) && p in LiveIn(bs)
    ensures lo < p.at <= p.end < hi
  {
    var i := LiveIndex(bs, p);
    ChainFacts(w, bs, lo, hi, i);
    ChainFacts(w, bs, lo, hi, i + 1);
  }

  /** A payload that starts in region r can only be live there. */
  lemma InOneRegion(w: seq<Unit>, regions: seq<Region>, blocks: seq<seq<Block>>, r: nat, p: Payload)
    requires AllGood(w, regions, blocks) && RegionsOk(regions, |w|) && r < |regions| &&
        regions[r].first < p.at < regions[r].last
    ensures p in LiveAll(blocks) <==> p in LiveIn(blocks[r])
  {
    hide LiveIn, Chain;
    if p in LiveAll(blocks) {
      var s :| 0 <= s < |blocks| && p in LiveIn(blocks[s]);
      LiveBounds(w, blocks[s], regions[s].first, regions[s].last, p);
    }
  }

  lemma LiveAllAdd(w: seq<Unit>, regions: seq<Region>, blocks: seq<seq<Block>>, r: nat, bs': seq<Block>, p: Payload)
    requires AllGood(w, regions, blocks) && RegionsOk(regions, |w|) && r < |regions| &&
        regions[r].first < p.at < regions[r].last
    requires LiveIn(bs') == LiveIn(blocks[r]) + {p} && p !in LiveIn(blocks[r])
    ensures LiveAll(blocks[r := bs']) == LiveAll(blocks) + {p} && p !in LiveAll(blocks)
  {
    hide LiveIn, Good;
    InOneRegion(w, regions, blocks, r, p);
    var blocks' := blocks[r := bs'];
    assert blocks'[r] == bs';
    forall q | q in LiveAll(blocks) ensures q in LiveAll(blocks') {
      var s :| 0 <= s < |blocks| && q in LiveIn(blocks[s]);
      assert q in LiveIn(blocks'[s]);
    }
  }

  lemma LiveAllDrop(w: seq<Unit>, regions: seq<Region>, blocks: seq<seq<Block>>, r: nat, bs': seq<Block>, p: Payload)
    requires AllGood(w, regions, blocks) && RegionsOk(regions, |w|) && r < |regions|
    requires LiveIn(bs') == LiveIn(blocks[r]) - {p} && p in LiveIn(blocks[r])
    ensures LiveAll(blocks[r := bs']) == LiveAll(blocks) - {p} && p in LiveAll(blocks)
  {
    hide LiveIn, Chain;
    LiveBounds(w, blocks[r], regions[r].first, regions[r].last, p);
    var blocks' := blocks[r := bs'];
    forall q | q in LiveAll(blocks) - {p} ensures q in LiveAll(blocks') {
      var s :| 0 <= s < |blocks| && q in LiveIn(blocks[s]);
      assert q in LiveIn(blocks'[s]);
    }
    forall q | q in LiveAll(blocks') ensures q in LiveAll(blocks) - {p} {
      var s :| 0 <= s < |blocks| && q in LiveIn(blocks'[s]);
      if s != r {
        LiveBounds(w, blocks[s], regions[s].first, regions[s].last, q);
      }
    }
  }

  /** The units of p hold what they held. */
  ghost predicate UnitsSame(w: seq<Unit>, w': seq<Unit>, p: Payload) {
    p.at <= p.end <= |w| == |w'| && w'[p.at..p.end] == w[p.at..p.end]
  }

  ghost predicate Kept(w: seq<Unit>, w': seq<Unit>, live: set<Payload>) {
    forall p | p in live :: UnitsSame(w, w', p)
  }

  /** Writes to headers, and to one unit t of block k, touch no payload but that of block k. */
  lemma KeptInRegion(w: seq<Unit>, w': seq<Unit>, bs: seq<Block>, lo: nat, hi: nat, k: nat, t: nat, q: Payload)
    requires Chain(w, bs, lo, hi) && k + 1 < |bs| && bs[k].at <= t <= bs[k + 1].at
    requires HeadersOnly(w, w', Starts(bs) + {t}) && q in LiveIn(bs) && q != PayloadOf(bs, k)
    ensures UnitsSame(w, w', q)
  {
    hide Chain, LiveIn, Starts;
    LiveBounds(w, bs, lo, hi, q);
    ChainFacts(w, bs, lo, hi, k);
    var i := LiveIndex(bs, q);
    ChainIncreasing(w, bs, lo, hi);
    if i + 1 < k { Before(bs, i + 1, k); }
    if k + 1 < i { Before(bs, k + 1, i); }
    hide Increasing;
    forall u | q.at <= u < q.end ensures w'[u] == w[u] {
      NoStartInside(w, bs, lo, hi, q, u);
    }
  }

  lemma KeptElsewhere(w: seq<Unit>, w': seq<Unit>, regions: seq<Region>, blocks: seq<seq<Block>>, r: nat, k: nat,
      t: nat, live: set<Payload>)
    requires AllGood(w, regions, blocks) && RegionsOk(regions, |w|) && r < |regions| && k + 1 < |blocks[r]|
    requires blocks[r][k].at <= t <= blocks[r][k + 1].at && HeadersOnly(w, w', Starts(blocks[r]) + {t})
    requires live <= LiveAll(blocks) && PayloadOf(blocks[r], k) !in live
    ensures Kept(w, w', live) && Within(Starts(blocks[r]) + {t}, regions[r])
  {
    hide LiveIn, Chain;
    var g, bs := regions[r], blocks[r];
    StartsWithin(w, bs, g);
    ChainFacts(w, bs, g.first, g.last, k);
    ChainFacts(w, bs, g.first, g.last, k + 1);
    forall q | q in live ensures UnitsSame(w, w', q) {
      var s :| 0 <= s < |blocks| && q in LiveIn(blocks[s]);
      if s == r {
        KeptInRegion(w, w', bs, g.first, g.last, k, t, q);
      } else {
        LiveBounds(w, blocks[s], regions[s].first, regions[s].last, q);
        forall u | q.at <= u < q.end ensures w'[u] == w[u] { assert u !in Starts(bs) + {t}; }
      }
    }
  }

  lemma StartsWithin(w: seq<Unit>, bs: seq<Block>, g: Region)
    requires Chain(w, bs, g.first, g.last)
    ensures Within(Starts(bs), g)
  {
  }

  /** Two live payloads, in one region or in two, do not overlap. */
  lemma AllLiveDisjoint(w: seq<Unit>, regions: seq<Region>, blocks: seq<seq<Block>>, p: Payload, q: Payload)
    requires AllGood(w, regions, blocks) && RegionsOk(regions, |w|) && p in LiveAll(blocks) && q in LiveAll(blocks) &&
        p != q
    ensures p.end < q.at || q.end < p.at
  {
    hide LiveIn, Chain;
    var r :| 0 <= r < |blocks| && p in LiveIn(blocks[r]);
    var s :| 0 <= s < |blocks| && q in LiveIn(blocks[s]);
    LiveBounds(w, blocks[r], regions[r].first, regions[r].last, p);
    LiveBounds(w, blocks[s], regions[s].first, regions[s].last, q);
    if r == s { LiveDisjoint(w, blocks[r], regions[r].first, regions[r].last, p, q); }
  }

  /** The block of a live payload. */
  lemma Locate(regions: seq<Region>, blocks: seq<seq<Block>>, p: Payload) returns (r: nat, k: nat)
    requires p in LiveAll(blocks)
    ensures r < |blocks| && 0 < k < |blocks[r]| - 1 && blocks[r][k].taken && p == PayloadOf(blocks[r], k)
  {
    r :| 0 <= r < |blocks| && p in LiveIn(blocks[r]);
    k := LiveIndex(blocks[r], p);
  }

  /** One free block between two guards. */
  function Initial(g: Region): seq<Block>
    requires 0 < g.last
  {
    [Block(g.first, true), Block(g.first + 1, false), Block(g.last - 1, true)]
  }

  /** With nothing live, every region is as s_init left it. */
  lemma AllGivenBack(w: seq<Unit>, regions: seq<Region>, blocks: seq<seq<Block>>)
    requires AllGood(w, regions, blocks) && RegionsOk(regions, |w|) && LiveAll(blocks) == {}
    ensures blocks == seq(|regions|, i requires 0 <= i < |regions| => Initial(regions[i]))
  {
    forall r | 0 <= r < |regions| ensures blocks[r] == Initial(regions[r]) {
      NothingLive(w, blocks[r], regions[r].first, regions[r].last);
      assert forall p | p in LiveIn(blocks[r]) :: p in LiveAll(blocks);
    }
  }

  /** The program may write what it likes in a payload of its own. */
  lemma PayloadWrite(w: seq<Unit>, w': seq<Unit>, regions: seq<Region>, blocks: seq<seq<Block>>, p: Payload)
    requires AllGood(w, regions, blocks) && RegionsOk(regions, |w|) && p in LiveAll(blocks) && |w'| == |w|
    requires forall u | 0 <= u < |w| && (u < p.at || u >= p.end) :: w'[u] == w[u]
    ensures AllGood(w', regions, blocks) && Kept(w, w', LiveAll(blocks) - {p})
  {
    hide Chain, NoTwoFree, LiveIn;
    var r, k := Locate(regions, blocks, p);
    ProgramWrites(w, w', blocks[r], regions[r].first, regions[r].last, p, k);
    forall s | 0 <= s < |regions| && s != r ensures Good(w', blocks[s], regions[s].first, regions[s].last) {
      InRange(w, regions, blocks, r, k);
      GoodFrame(w, w', blocks[s], regions[s].first, regions[s].last);
    }
    forall q | q in LiveAll(blocks) - {p} ensures UnitsSame(w, w', q) {
      AllLiveDisjoint(w, regions, blocks, p, q);
      var s, i := Locate(regions, blocks, q);
      InRange(w, regions, blocks, s, i);
      InRange(w, regions, blocks, r, k);
      assert forall u | q.at <= u < q.end :: w'[u] == w[u];
      assert w'[q.at..q.end] == w[q.at..q.end];
    }
  }

  lemma InRange(w: seq<Unit>, regions: seq<Region>, blocks: seq<seq<Block>>, r: nat, k: nat)
    requires AllGood(w, regions, blocks) && r < |blocks| && k < |blocks[r]| - 1
    ensures var p := PayloadOf(blocks[r], k); regions[r].first < p.at <= p.end < regions[r].last <= |w|
  {
    hide Chain;
    ChainFacts(w, blocks[r], regions[r].first, regions[r].last, k);
    ChainFacts(w, blocks[r], regions[r].first, regions[r].last, k + 1);
  }

  lemma ProgramWrites(w: seq<Unit>, w': seq<Unit>, bs: seq<Block>, lo: nat, hi: nat, p: Payload, k: nat)
    requires Good(w, bs, lo, hi) && 0 < k < |bs| - 1 && bs[k].taken && p == PayloadOf(bs, k) && |w'| == |w|
    requires forall u | 0 <= u < |w| && (u < p.at || u >= p.end) :: w'[u] == w[u]
    ensures Good(w', bs, lo, hi)
  {
    hide Chain, NoTwoFree;
    InRam(w, bs, lo, hi);
    assert p in LiveIn(bs);
    forall i | 0 <= i < |bs| ensures w'[bs[i].at] == w[bs[i].at] {
      if p.at <= bs[i].at < p.end {
        NoStartInside(w, bs, lo, hi, p, bs[i].at);
      }
    }
    SameStarts(w, w', bs, lo, hi);
  }

  lemma SameStarts(w: seq<Unit>, w': seq<Unit>, bs: seq<Block>, lo: nat, hi: nat)
    requires Chain(w, bs, lo, hi) && |w'| == |w| &&
        forall i | 0 <= i < |bs| :: bs[i].at < |w| && w'[bs[i].at] == w[bs[i].at]
    ensures Chain(w', bs, lo, hi)
  {
    forall i, j | 0 <= i < |bs| && 0 <= j < |bs| && j == i + 1 ensures Linked(w', bs[i], bs[j]) {
      assert Linked(w, bs[i], bs[j]);
    }
    assert w'[bs[|bs| - 1].at] == w[bs[|bs| - 1].at];
  }
}
