/**
  The simple allocator's memory: 8-byte units of two 32-bit words, and in each RAM region
  a doubly linked chain of blocks between two guards.
 */
module SallocChain {
  const TAKEN: nat := 0x8000_0000
  const MAX_UNITS: nat := 0x2000_0000

  type Word = x: nat | x < 0x1_0000_0000

  /**
    The header of a block: bit 31 of w0 says taken, the low bits are the addresses, divided by 8, of the next and
    previous block.
   */
  datatype Unit = Unit(w0: Word, w1: Word)

  function NextOf(x: Unit): nat { x.w0 % TAKEN }
  function PrevOf(x: Unit): nat { x.w1 % TAKEN }
  predicate IsTaken(x: Unit) { x.w0 >= TAKEN }

  /** The low 31 bits of a word replaced, its top bit kept. */
  function Low(w: Word, v: nat): Word
    requires v < TAKEN
  {
    if w >= TAKEN then TAKEN + v else v
  }

  /** A block as the chain sees it; it reaches to the start of the next one. */
  datatype Block = Block(at: nat, taken: bool)

  ghost predicate Linked(w: seq<Unit>, a: Block, b: Block) {
    a.at < b.at < |w| && NextOf(w[a.at]) == b.at && PrevOf(w[b.at]) == a.at
  }

  /** The region [lo, hi) is tiled by the blocks bs, the first and last of which are the guards. */
  ghost predicate Chain(w: seq<Unit>, bs: seq<Block>, lo: nat, hi: nat) {
    && |bs| >= 3 && 0 < lo < hi <= |w| <= MAX_UNITS
    && bs[0] == Block(lo, true) && bs[1].at == lo + 1 && bs[|bs| - 1] == Block(hi - 1, true)
    && (forall i | 0 <= i < |bs| :: lo <= bs[i].at < hi && IsTaken(w[bs[i].at]) == bs[i].taken)
    && (forall i, j | 0 <= i < |bs| && 0 <= j < |bs| && j == i + 1 :: Linked(w, bs[i], bs[j]))
    && NextOf(w[hi - 1]) == 0
  }

  ghost predicate NoTwoFree(bs: seq<Block>) {
    forall i, j | 0 <= i < |bs| && 0 <= j < |bs| && j == i + 1 :: bs[i].taken || bs[j].taken
  }

  ghost predicate Increasing(bs: seq<Block>) {
    forall i, j | 0 <= i < |bs| && 0 <= j < |bs| && j == i + 1 :: bs[i].at < bs[j].at
  }

  lemma ChainIncreasing(w: seq<Unit>, bs: seq<Block>, lo: nat, hi: nat)
    requires Chain(w, bs, lo, hi)
    ensures Increasing(bs)
  {
    assert forall i, j | 0 <= i < |bs| && 0 <= j < |bs| && j == i + 1 :: Linked(w, bs[i], bs[j]);
  }

  lemma {:induction false} Before(bs: seq<Block>, i: nat, j: nat)
    requires Increasing(bs) && i < j < |bs|
    ensures bs[i].at < bs[j].at
    decreases j
  {
    if i < j - 1 { Before(bs, i, j - 1); }
  }

  lemma StartsDiffer(bs: seq<Block>, i: nat, j: nat)
    requires Increasing(bs) && i < |bs| && j < |bs|
    ensures bs[i].at == bs[j].at <==> i == j
  {
    if i < j { Before(bs, i, j); } else if j < i { Before(bs, j, i); }
  }

  /* ---- Replacing blocks ---- */

  ghost function Splice(bs: seq<Block>, l: nat, m: nat, mid: seq<Block>): seq<Block>
    requires l <= m <= |bs|
  {
    bs[..l] + mid + bs[m..]
  }

  lemma SpliceAt(bs: seq<Block>, l: nat, m: nat, mid: seq<Block>, i: nat)
    requires l <= m <= |bs| && i < |Splice(bs, l, m, mid)|
    ensures Splice(bs, l, m, mid)[i] == if i < l then bs[i] else if i < l + |mid| then mid[i - l]
        else bs[i - l - |mid| + m]
  {
  }

  /** What must hold of the new words when mid takes the place of bs[l..m]. */
  ghost predicate Relinked(w: seq<Unit>, w': seq<Unit>, bs: seq<Block>, l: nat, m: nat, mid: seq<Block>) {
    && 1 <= l < m < |bs| && mid != [] && mid[0].at == bs[l].at && |w'| == |w|
    && (forall i | 0 <= i < |mid| ::
        mid[i].at < |w'| && bs[l].at <= mid[i].at < bs[m].at && IsTaken(w'[mid[i].at]) == mid[i].taken)
    && (forall i, j | 0 <= i < |mid| && 0 <= j < |mid| && j == i + 1 :: Linked(w', mid[i], mid[j]))
    && Linked(w', mid[|mid| - 1], bs[m])
    && bs[l].at < |w| && PrevOf(w'[bs[l].at]) == PrevOf(w[bs[l].at])
    && bs[m].at < |w| && w'[bs[m].at].w0 == w[bs[m].at].w0
    && (forall i | 0 <= i < |bs| && (i < l || i > m) :: bs[i].at < |w| && w'[bs[i].at] == w[bs[i].at])
  }

  lemma Relink(w: seq<Unit>, w': seq<Unit>, bs: seq<Block>, l: nat, m: nat, mid: seq<Block>, lo: nat, hi: nat)
    requires Chain(w, bs, lo, hi) && Relinked(w, w', bs, l, m, mid)
    ensures Chain(w', Splice(bs, l, m, mid), lo, hi)
  {
    var bs' := Splice(bs, l, m, mid);
    forall i | 0 <= i < |bs'| ensures lo <= bs'[i].at < hi && IsTaken(w'[bs'[i].at]) == bs'[i].taken {
      SpliceAt(bs, l, m, mid, i);
    }
    forall i, j | 0 <= i < |bs'| && 0 <= j < |bs'| && j == i + 1 ensures Linked(w', bs'[i], bs'[j]) {
      RelinkPair(w, w', bs, l, m, mid, lo, hi, i, j);
    }
    SpliceAt(bs, l, m, mid, 0);
    SpliceAt(bs, l, m, mid, 1);
    SpliceAt(bs, l, m, mid, |bs'| - 1);
    assert bs'[|bs'| - 1] == bs[|bs| - 1];
  }

  lemma RelinkPair(w: seq<Unit>, w': seq<Unit>, bs: seq<Block>, l: nat, m: nat, mid: seq<Block>, lo: nat, hi: nat,
      i: nat, j: nat)
    requires Chain(w, bs, lo, hi) && Relinked(w, w', bs, l, m, mid) && j == i + 1 && j < |Splice(bs, l, m, mid)|
    ensures Linked(w', Splice(bs, l, m, mid)[i], Splice(bs, l, m, mid)[j])
  {
    SpliceAt(bs, l, m, mid, i);
    SpliceAt(bs, l, m, mid, j);
    if j <= l {
      assert Linked(w, bs[i], bs[j]);
    } else if i >= l + |mid| {
      assert Linked(w, bs[i - l - |mid| + m], bs[j - l - |mid| + m]);
    }
  }

  /* ---- Live blocks ---- */

  /** Units [at, end) of a block in use, its header left out. */
  datatype Payload = Payload(at: nat, end: nat)

  ghost function PayloadOf(bs: seq<Block>, i: nat): Payload
    requires i + 1 < |bs|
  {
    Payload(bs[i].at + 1, bs[i + 1].at)
  }

  /** What the program holds in one region. */
  ghost function LiveIn(bs: seq<Block>): set<Payload> {
    set i | 0 < i < |bs| - 1 && bs[i].taken :: PayloadOf(bs, i)
  }

  lemma LiveIndex(bs: seq<Block>, p: Payload) returns (i: nat)
    requires p in LiveIn(bs)
    ensures 0 < i < |bs| - 1 && bs[i].taken && p == PayloadOf(bs, i)
  {
    i :| 0 < i < |bs| - 1 && bs[i].taken && p == PayloadOf(bs, i);
  }

  /** Units at which the headers of old and new blocks lie are the only ones that may have changed. */
  ghost predicate HeadersOnly(w: seq<Unit>, w': seq<Unit>, heads: set<nat>) {
    |w'| == |w| && forall u | 0 <= u < |w| && u !in heads :: w'[u] == w[u]
  }

  ghost function Starts(bs: seq<Block>): set<nat> {
    set b | b in bs :: b.at
  }

  /** No block starts inside a payload. */
  lemma NoStartInside(w: seq<Unit>, bs: seq<Block>, lo: nat, hi: nat, p: Payload, u: nat)
    requires Chain(w, bs, lo, hi) && p in LiveIn(bs) && p.at <= u < p.end
    ensures u !in Starts(bs)
  {
    hide Chain, Increasing, LiveIn;
    ChainIncreasing(w, bs, lo, hi);
    var i := LiveIndex(bs, p);
    if u in Starts(bs) {
      var j :| 0 <= j < |bs| && bs[j].at == u;
      if j < i { Before(bs, j, i); }
      if j > i + 1 { Before(bs, i + 1, j); }
    }
  }

  /** Two payloads of one region do not overlap. */
  lemma LiveDisjoint(w: seq<Unit>, bs: seq<Block>, lo: nat, hi: nat, p: Payload, q: Payload)
    requires Chain(w, bs, lo, hi) && p in LiveIn(bs) && q in LiveIn(bs) && p != q
    ensures p.end < q.at || q.end < p.at
    ensures lo < p.at <= p.end < hi
  {
    ChainIncreasing(w, bs, lo, hi);
    var i := LiveIndex(bs, p);
    var j := LiveIndex(bs, q);
    assert bs[0].at == lo && bs[i + 1].at < hi;
    hide Chain, Increasing, LiveIn;
    Before(bs, 0, i);
    Before(bs, i, i + 1);
    if i + 1 < j { Before(bs, i + 1, j); }
    if j + 1 < i { Before(bs, j + 1, i); }
  }

  /** With nothing live, the region is one free block again. */
  lemma NothingLive(w: seq<Unit>, bs: seq<Block>, lo: nat, hi: nat)
    requires Chain(w, bs, lo, hi) && NoTwoFree(bs)
    ensures LiveIn(bs) == {} ==> bs == [Block(lo, true), Block(lo + 1, false), Block(hi - 1, true)]
  {
    if bs[1].taken { assert PayloadOf(bs, 1) in LiveIn(bs); }
    if |bs| > 3 {
      var i := if bs[1].taken then 1 else 2;
      assert bs[i].taken;
      assert PayloadOf(bs, i) in LiveIn(bs);
    }
  }

  /* ---- Freeing and cutting, as the chain sees them ---- */

  ghost predicate Inner(bs: seq<Block>, k: nat) {
    0 < k < |bs| - 1 && bs[0].taken && bs[|bs| - 1].taken
  }

  ghost function RunLo(bs: seq<Block>, k: nat): nat
    requires Inner(bs, k)
  {
    if bs[k - 1].taken then k else k - 1
  }

  ghost function RunHi(bs: seq<Block>, k: nat): (m: nat)
    requires Inner(bs, k)
    ensures k < m < |bs|
  {
    if bs[k + 1].taken then k + 1 else k + 2
  }

  /** Block k is freed and joined with its free neighbours. */
  ghost function Freed(bs: seq<Block>, k: nat): seq<Block>
    requires Inner(bs, k)
  {
    Splice(bs, RunLo(bs, k), RunHi(bs, k), [Block(bs[RunLo(bs, k)].at, false)])
  }

  /** Block k is cut after n units in two taken blocks. */
  ghost function CutTwo(bs: seq<Block>, k: nat, n: nat): seq<Block>
    requires k < |bs|
  {
    Splice(bs, k, k + 1, [Block(bs[k].at, true), Block(bs[k].at + n, true)])
  }

  /** bs but for block k, which may be free next to a free block, has no two free neighbours. */
  ghost predicate NoTwoFreeBut(bs: seq<Block>, k: nat) {
    forall i, j | 0 <= i < |bs| && 0 <= j < |bs| && j == i + 1 && i != k && j != k :: bs[i].taken || bs[j].taken
  }

  lemma FreedNoTwoFree(bs: seq<Block>, k: nat)
    requires Inner(bs, k) && NoTwoFreeBut(bs, k)
    ensures NoTwoFree(Freed(bs, k))
  {
    var l, m := RunLo(bs, k), RunHi(bs, k);
    var mid := [Block(bs[l].at, false)];
    var bs' := Freed(bs, k);
    assert bs[l - 1].taken && bs[m].taken;
    forall i, j | 0 <= i < |bs'| && 0 <= j < |bs'| && j == i + 1 ensures bs'[i].taken || bs'[j].taken {
      SpliceAt(bs, l, m, mid, i);
      SpliceAt(bs, l, m, mid, j);
    }
  }

  lemma CutNoTwoFree(bs: seq<Block>, k: nat, n: nat)
    requires Inner(bs, k) && NoTwoFree(bs)
    ensures Inner(CutTwo(bs, k, n), k + 1) && NoTwoFreeBut(CutTwo(bs, k, n), k + 1)
  {
    var mid := [Block(bs[k].at, true), Block(bs[k].at + n, true)];
    var bs' := CutTwo(bs, k, n);
    forall i, j | 0 <= i < |bs'| && 0 <= j < |bs'| && j == i + 1 ensures bs'[i].taken || bs'[j].taken {
      SpliceAt(bs, k, k + 1, mid, i);
      SpliceAt(bs, k, k + 1, mid, j);
    }
    SpliceAt(bs, k, k + 1, mid, 0);
    SpliceAt(bs, k, k + 1, mid, |bs'| - 1);
  }

  lemma TakeNoTwoFree(bs: seq<Block>, k: nat)
    requires k < |bs| && NoTwoFree(bs)
    ensures NoTwoFree(bs[k := Block(bs[k].at, true)])
  {
  }

  /* ---- What they do to the live payloads ---- */

  /** The payloads of a stretch of blocks, the last of which only bounds the others. */
  ghost function MidLive(s: seq<Block>): set<Payload> {
    set i | 0 <= i < |s| - 1 && s[i].taken :: PayloadOf(s, i)
  }

  lemma LiveIsMid(bs: seq<Block>)
    requires |bs| >= 1
    ensures LiveIn(bs) == MidLive(bs[1..])
  {
    forall p | p in LiveIn(bs) ensures p in MidLive(bs[1..]) {
      var i := LiveIndex(bs, p);
      assert PayloadOf(bs[1..], i - 1) == p;
    }
    forall p | p in MidLive(bs[1..]) ensures p in LiveIn(bs) {
      var i :| 0 <= i < |bs| - 2 && bs[1..][i].taken && PayloadOf(bs[1..], i) == p;
      assert PayloadOf(bs, i + 1) == p;
    }
  }

  /** Payloads of two stretches that meet at block b. */
  lemma MidLiveJoin(s: seq<Block>, b: Block, t: seq<Block>)
    ensures MidLive(s + [b] + t) == MidLive(s + [Block(b.at, false)]) + MidLive([b] + t)
  {
    var a, x, y := s + [b] + t, s + [Block(b.at, false)], [b] + t;
    forall p | p in MidLive(a) ensures p in MidLive(x) + MidLive(y) {
      var i :| 0 <= i < |a| - 1 && a[i].taken && PayloadOf(a, i) == p;
      if i < |s| { assert PayloadOf(x, i) == p; } else { assert PayloadOf(y, i - |s|) == p; }
    }
    forall p | p in MidLive(x) ensures p in MidLive(a) {
      var i :| 0 <= i < |x| - 1 && x[i].taken && PayloadOf(x, i) == p;
      assert PayloadOf(a, i) == p;
    }
    forall p | p in MidLive(y) ensures p in MidLive(a) {
      var i :| 0 <= i < |y| - 1 && y[i].taken && PayloadOf(y, i) == p;
      assert PayloadOf(a, |s| + i) == p;
    }
  }

  ghost function Bound(s: seq<Block>, b: Block): seq<Block> { s + [Block(b.at, false)] }

  lemma LiveParts(bs: seq<Block>, l: nat, m: nat, mid: seq<Block>)
    requires 1 <= l <= m < |bs| && mid != []
    ensures LiveIn(Splice(bs, l, m, mid)) == MidLive(Bound(bs[1..l], mid[0])) + MidLive(Bound(mid, bs[m])) +
        MidLive(bs[m..])
  {
    hide MidLive, LiveIn;
    var bs' := Splice(bs, l, m, mid);
    LiveIsMid(bs');
    assert bs'[1..] == bs[1..l] + [mid[0]] + (mid[1..] + bs[m..]);
    MidLiveJoin(bs[1..l], mid[0], mid[1..] + bs[m..]);
    assert [mid[0]] + (mid[1..] + bs[m..]) == mid + [bs[m]] + bs[m + 1..];
    MidLiveJoin(mid, bs[m], bs[m + 1..]);
    assert [bs[m]] + bs[m + 1..] == bs[m..];
  }

  /** The payloads of blocks l..m go, those of mid come, the others stay. */
  lemma SpliceLive(bs: seq<Block>, l: nat, m: nat, mid: seq<Block>)
    requires Increasing(bs) && 1 <= l < m < |bs| && mid != [] && mid[0].at == bs[l].at
    ensures LiveIn(Splice(bs, l, m, mid)) == LiveIn(bs) - MidLive(Bound(bs[l..m], bs[m])) + MidLive(Bound(mid, bs[m]))
  {
    hide LiveIn, Increasing;
    LiveParts(bs, l, m, mid);
    LiveParts(bs, l, m, bs[l..m]);
    assert Splice(bs, l, m, bs[l..m]) == bs;
    PartsDisjoint(bs, l, m);
  }

  lemma MidIndex(s: seq<Block>, p: Payload) returns (i: nat)
    requires p in MidLive(s)
    ensures i < |s| - 1 && p.at == s[i].at + 1
  {
    i :| 0 <= i < |s| - 1 && PayloadOf(s, i) == p;
    assert PayloadOf(s, i).at == s[i].at + 1;
  }

  lemma PartsDisjoint(bs: seq<Block>, l: nat, m: nat)
    requires Increasing(bs) && 1 <= l < m < |bs|
    ensures MidLive(Bound(bs[l..m], bs[m])) !! MidLive(Bound(bs[1..l], bs[l])) + MidLive(bs[m..])
  {
    hide Increasing, MidLive;
    var x, y, z := Bound(bs[l..m], bs[m]), Bound(bs[1..l], bs[l]), bs[m..];
    forall p | p in MidLive(x) ensures p !in MidLive(y) && p !in MidLive(z) {
      var i := MidIndex(x, p);
      assert x[i].at == bs[l + i].at;
      if p in MidLive(y) {
        var j := MidIndex(y, p);
        assert y[j].at == bs[j + 1].at;
        StartsDiffer(bs, l + i, j + 1);
      }
      if p in MidLive(z) {
        var j := MidIndex(z, p);
        assert z[j].at == bs[m + j].at;
        StartsDiffer(bs, l + i, m + j);
      }
    }
  }

  lemma OnePayload(b: Block, c: Block)
    ensures MidLive(Bound([b], c)) == if b.taken then {Payload(b.at + 1, c.at)} else {}
  {
    var s := Bound([b], c);
    if b.taken { assert PayloadOf(s, 0) == Payload(b.at + 1, c.at); }
  }

  lemma TwoPayloads(b: Block, d: Block, c: Block)
    ensures MidLive(Bound([b, d], c)) == (if b.taken then {Payload(b.at + 1, d.at)} else {}) +
        (if d.taken then {Payload(d.at + 1, c.at)} else {})
  {
    OnePayload(b, d);
    OnePayload(d, c);
    assert Bound([b, d], c) == [b] + [d] + [Block(c.at, false)];
    MidLiveJoin([b], d, [Block(c.at, false)]);
    assert [d] + [Block(c.at, false)] == Bound([d], c);
  }

  /** Taking a free block whole. */
  lemma TakeLive(bs: seq<Block>, k: nat)
    requires Increasing(bs) && Inner(bs, k) && !bs[k].taken
    ensures LiveIn(bs[k := Block(bs[k].at, true)]) == LiveIn(bs) + {PayloadOf(bs, k)} && PayloadOf(bs, k) !in LiveIn(bs)
  {
    hide LiveIn, MidLive;
    assert bs[k..k + 1] == [bs[k]];
    assert bs[k := Block(bs[k].at, true)] == Splice(bs, k, k + 1, [Block(bs[k].at, true)]);
    SpliceLive(bs, k, k + 1, [Block(bs[k].at, true)]);
    OnePayload(bs[k], bs[k + 1]);
    OnePayload(Block(bs[k].at, true), bs[k + 1]);
    NotHeld(bs, k, PayloadOf(bs, k));
  }

  lemma NotHeld(bs: seq<Block>, k: nat, p: Payload)
    requires Increasing(bs) && k < |bs| && !bs[k].taken && p.at == bs[k].at + 1
    ensures p !in LiveIn(bs)
  {
    if p in LiveIn(bs) {
      var i := LiveIndex(bs, p);
      StartsDiffer(bs, i, k);
    }
  }

  lemma CutLive(bs: seq<Block>, k: nat, n: nat)
    requires Increasing(bs) && Inner(bs, k)
    ensures LiveIn(CutTwo(bs, k, n)) ==
              LiveIn(bs) - {PayloadOf(bs, k)} + {Payload(bs[k].at + 1, bs[k].at + n),
                  Payload(bs[k].at + n + 1, bs[k + 1].at)}
  {
    hide LiveIn, MidLive;
    assert bs[k..k + 1] == [bs[k]];
    SpliceLive(bs, k, k + 1, [Block(bs[k].at, true), Block(bs[k].at + n, true)]);
    OnePayload(bs[k], bs[k + 1]);
    TwoPayloads(Block(bs[k].at, true), Block(bs[k].at + n, true), bs[k + 1]);
    if !bs[k].taken { NotHeld(bs, k, PayloadOf(bs, k)); }
  }

  /** Freeing block k takes its payload, and only that, from the program. */
  lemma FreedLive(bs: seq<Block>, k: nat)
    requires Increasing(bs) && Inner(bs, k)
    ensures LiveIn(Freed(bs, k)) == LiveIn(bs) - {PayloadOf(bs, k)}
  {
    hide LiveIn, MidLive, Increasing;
    var l, m := RunLo(bs, k), RunHi(bs, k);
    SpliceLive(bs, l, m, [Block(bs[l].at, false)]);
    OnePayload(Block(bs[l].at, false), bs[m]);
    RunLive(bs, k);
    if !bs[k].taken { NotHeld(bs, k, PayloadOf(bs, k)); }
  }

  lemma RunLive(bs: seq<Block>, k: nat)
    requires Inner(bs, k)
    ensures MidLive(Bound(bs[RunLo(bs, k)..RunHi(bs, k)], bs[RunHi(bs, k)])) == if bs[k].taken then {PayloadOf(bs, k)}
        else {}
  {
    var l, m := RunLo(bs, k), RunHi(bs, k);
    var s := Bound(bs[l..m], bs[m]);
    forall p | p in MidLive(s) ensures p == PayloadOf(bs, k) {
      var i :| 0 <= i < |s| - 1 && s[i].taken && PayloadOf(s, i) == p;
      assert s[i] == bs[l + i] && s[i + 1].at == bs[l + i + 1].at;
    }
    if bs[k].taken { assert s[k - l].taken && PayloadOf(s, k - l) == PayloadOf(bs, k); }
  }
}
