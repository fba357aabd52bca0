/** The 32 tree bins with their bitmap: insertion, removal and the two best-fit searches. */
module DlTreeBins {
  import opened DlBitmap
  import opened Arith
  import opened DlIndex
  import opened DlTrie

  /** Bin i is represented by t, whose root hangs from the bin's own pointer cell. */
  ghost predicate BinOk(head: Heads, link: Links, t: Tree, root: Addr, cell: Addr, i: nat)
    requires i < NTREEBINS
  {
    && Proper(t) && Sized(head, t) && Linked(link, t, root, cell, i)
    && InTrie(t, BinLo(i), BinBits(i))
    && forall s | s in Sizes(t) :: InBin(i, s)
  }

  ghost predicate Disjoint(trees: seq<Tree>) {
    forall i, j | 0 <= i < j < |trees| :: Addrs(trees[i]) !! Addrs(trees[j])
  }

  ghost function AllAddrs(trees: seq<Tree>): set<Addr> {
    set i, a | 0 <= i < |trees| && a in Addrs(trees[i]) :: a
  }

  lemma BinFrame(head: Heads, m: Links, m': Links, t: Tree, root: Addr, cell: Addr, i: nat, touched: set<Addr>)
    requires i < NTREEBINS && BinOk(head, m, t, root, cell, i)
    requires SameExcept(m, m', touched) && touched !! Addrs(t)
    ensures BinOk(head, m', t, root, cell, i)
  {
    LinkedFrame(m, m', t, root, cell, i);
  }

  lemma AllAddrsUpdate(trees: seq<Tree>, i: nat, t: Tree)
    requires i < |trees| && Disjoint(trees)
    ensures forall j | 0 <= j < |trees| && j != i :: Addrs(trees[j]) !! Addrs(trees[i])
    ensures AllAddrs(trees[i := t]) == AllAddrs(trees) - Addrs(trees[i]) + Addrs(t)
  {
    forall a | a in AllAddrs(trees) - Addrs(trees[i]) ensures a in AllAddrs(trees[i := t]) {
      var j :| 0 <= j < |trees| && a in Addrs(trees[j]);
      assert trees[i := t][j] == trees[j];
    }
    forall a | a in Addrs(t) ensures a in AllAddrs(trees[i := t]) {
      assert trees[i := t][i] == t;
    }
    forall a | a in AllAddrs(trees[i := t]) && a !in Addrs(t) ensures a in AllAddrs(trees) - Addrs(trees[i]) {
      var j :| 0 <= j < |trees| && a in Addrs(trees[i := t][j]);
    }
  }

  /** Pointer cell of bin i, in the allocator's static state. */
  function Cell(binsAt: Addr, i: nat): Addr { binsAt + 4 * i }

  /** The cell of a child pointer in the tree chunk at at. */
  function ChildCell(at: Addr, right: bool): Addr { at + (if right then 20 else 16) }

  /** All chunks with links lie in the heap. */
  ghost predicate Inside(link: Links, least: Addr) {
    forall a | a in link :: OkAddress(least, a)
  }

  /** All tree bins together: disjoint tries, each in its bin, marked exactly when non-empty. */
  ghost predicate BinsOk(head: Heads, link: Links, treebins: seq<Addr>, treemap: BinMap, trees: seq<Tree>, binsAt: Addr,
      least: Addr) {
    && 0 < binsAt && binsAt + 4 * NTREEBINS <= least
    && |treebins| == NTREEBINS && |trees| == NTREEBINS
    && Inside(link, least)
    && (forall i | 0 <= i < NTREEBINS :: BinOk(head, link, trees[i], treebins[i], Cell(binsAt, i), i))
    && (forall i | 0 <= i < NTREEBINS :: treemap[i] <==> trees[i].Node?)
    && Disjoint(trees)
  }

  /** Replacing one bin, with link writes confined to that bin's old and new chunks. */
  lemma UpdateBin(head: Heads, link: Links, treebins: seq<Addr>, treemap: BinMap, trees: seq<Tree>, binsAt: Addr,
      least: Addr, i: nat, link': Links, t: Tree, root: Addr, treebins': seq<Addr>, treemap': BinMap)
    requires BinsOk(head, link, treebins, treemap, trees, binsAt, least) && i < NTREEBINS
    requires BinOk(head, link', t, root, Cell(binsAt, i), i)
    requires SameExcept(link, link', Addrs(trees[i]) + Addrs(t)) && (forall a | a in link' :: least <= a)
    requires Addrs(t) !! (AllAddrs(trees) - Addrs(trees[i]))
    requires treebins' == treebins[i := root] && treemap' == treemap[i := t.Node?]
    ensures BinsOk(head, link', treebins', treemap', trees[i := t], binsAt, least)
    ensures AllAddrs(trees[i := t]) == AllAddrs(trees) - Addrs(trees[i]) + Addrs(t)
  {
    hide Linked, InTrie, Sized, Proper, InBin, AllAddrs;
    AllAddrsUpdate(trees, i, t);
    OtherBins(head, link, treebins, treemap, trees, binsAt, least, i, link', t);
    DisjointUpdate(trees, i, t);
    var trees' := trees[i := t];
    forall j | 0 <= j < NTREEBINS ensures BinOk(head, link', trees'[j], treebins'[j], Cell(binsAt, j), j) {
      if j == i { assert trees'[j] == t && treebins'[j] == root; }
    }
  }

  lemma OtherBins(head: Heads, link: Links, treebins: seq<Addr>, treemap: BinMap, trees: seq<Tree>, binsAt: Addr,
      least: Addr, i: nat, link': Links, t: Tree)
    requires BinsOk(head, link, treebins, treemap, trees, binsAt, least) && i < NTREEBINS
    requires SameExcept(link, link', Addrs(trees[i]) + Addrs(t))
    requires Addrs(t) !! (AllAddrs(trees) - Addrs(trees[i]))
    ensures forall j | 0 <= j < NTREEBINS && j != i :: BinOk(head, link', trees[j], treebins[j], Cell(binsAt, j), j)
    ensures forall j | 0 <= j < NTREEBINS && j != i :: Addrs(t) !! Addrs(trees[j])
  {
    AllAddrsUpdate(trees, i, t);
    forall j | 0 <= j < NTREEBINS && j != i
      ensures BinOk(head, link', trees[j], treebins[j], Cell(binsAt, j), j) && Addrs(t) !! Addrs(trees[j])
    {
      OtherBin(head, link, treebins, treemap, trees, binsAt, least, i, link', t, j);
    }
  }

  lemma DisjointUpdate(trees: seq<Tree>, i: nat, t: Tree)
    requires i < |trees| && Disjoint(trees)
    requires forall j | 0 <= j < |trees| && j != i :: Addrs(t) !! Addrs(trees[j])
    ensures Disjoint(trees[i := t])
  {
  }

  lemma OtherBin(head: Heads, link: Links, treebins: seq<Addr>, treemap: BinMap, trees: seq<Tree>, binsAt: Addr,
      least: Addr, i: nat, link': Links, t: Tree, j: nat)
    requires BinsOk(head, link, treebins, treemap, trees, binsAt, least) && i < NTREEBINS && j < NTREEBINS && j != i
    requires SameExcept(link, link', Addrs(trees[i]) + Addrs(t))
    requires Addrs(t) !! (AllAddrs(trees) - Addrs(trees[i])) && Addrs(trees[j]) !! Addrs(trees[i])
    ensures BinOk(head, link', trees[j], treebins[j], Cell(binsAt, j), j) && Addrs(t) !! Addrs(trees[j])
  {
    assert Addrs(trees[j]) <= AllAddrs(trees) - Addrs(trees[i]);
    BinFrame(head, link, link', trees[j], treebins[j], Cell(binsAt, j), j, Addrs(trees[i]) + Addrs(t));
  }

  /** A size in the range of bin i fits the trie of that bin. */
  lemma FitsBin(head: Heads, link: Links, t: Tree, root: Addr, cell: Addr, i: nat, s: nat)
    requires InBin(i, s) && BinOk(head, link, t, root, cell, i)
    ensures Fits(t, BinLo(i), BinBits(i), s)
  {
    BinBlock(i, s);
  }

  lemma InsertBinOk(head: Heads, link: Links, t: Tree, root: Addr, cell: Addr, i: nat, x: Addr, s: nat)
    requires InBin(i, s)
    requires BinOk(head, link, t, root, cell, i) && t.Node?
    requires x in head && ChunkSize(head[x]) == s && x != 0 && x !in Addrs(t)
    ensures Fits(t, BinLo(i), BinBits(i), s)
    ensures var slot, t' := FindSlot(t, BinLo(i), BinBits(i), s), InsertTree(t, BinLo(i), BinBits(i), x, s);
            && slot.at in link && (slot.Join? ==> link[slot.at].fd in link)
            && BinOk(head, InsertLinks(link, slot, x, i), t', root, cell, i)
            && Addrs(t') == Addrs(t) + {x} && t'.Node?
            && SameExcept(link, InsertLinks(link, slot, x, i), Addrs(t'))
  {
    FitsBin(head, link, t, root, cell, i, s);
    var lo, k := BinLo(i), BinBits(i);
    InsertKeeps(t, lo, k, x, s);
    InsertInTrie(t, lo, k, x, s);
    InsertSized(head, t, lo, k, x, s);
    InsertLinked(link, t, root, cell, i, lo, k, x, s);
    InsertFootprint(link, t, root, cell, i, lo, k, x, s);
  }

  lemma InsertBinsOk(head: Heads, link: Links, treebins: seq<Addr>, treemap: BinMap, trees: seq<Tree>, binsAt: Addr,
      least: Addr, i: nat, x: Addr, s: nat, slot: Slot)
    requires BinsOk(head, link, treebins, treemap, trees, binsAt, least)
    requires InBin(i, s) && trees[i].Node?
    requires x in head && ChunkSize(head[x]) == s && least <= x && x !in AllAddrs(trees)
    requires Fits(trees[i], BinLo(i), BinBits(i), s) && slot == FindSlot(trees[i], BinLo(i), BinBits(i), s)
    ensures slot.at in link && (slot.Join? ==> link[slot.at].fd in link)
    ensures var trees' := trees[i := InsertTree(trees[i], BinLo(i), BinBits(i), x, s)];
            && BinsOk(head, InsertLinks(link, slot, x, i), treebins, treemap, trees', binsAt, least)
            && AllAddrs(trees') == AllAddrs(trees) + {x}
  {
    assert Addrs(trees[i]) <= AllAddrs(trees);
    InsertBinOk(head, link, trees[i], treebins[i], Cell(binsAt, i), i, x, s);
    GrowBin(head, link, treebins, treemap, trees, binsAt, least, i, x, InsertLinks(link, slot, x, i),
            InsertTree(trees[i], BinLo(i), BinBits(i), x, s));
  }

  lemma GrowBin(head: Heads, link: Links, treebins: seq<Addr>, treemap: BinMap, trees: seq<Tree>, binsAt: Addr,
      least: Addr, i: nat, x: Addr, link': Links, t: Tree)
    requires BinsOk(head, link, treebins, treemap, trees, binsAt, least) && i < NTREEBINS && trees[i].Node?
    requires BinOk(head, link', t, treebins[i], Cell(binsAt, i), i) && t.Node? && Addrs(t) == Addrs(trees[i]) + {x}
    requires SameExcept(link, link', Addrs(t)) && link'.Keys <= link.Keys + {x} && least <= x && x !in AllAddrs(trees)
    ensures BinsOk(head, link', treebins, treemap, trees[i := t], binsAt, least)
    ensures AllAddrs(trees[i := t]) == AllAddrs(trees) + {x}
  {
    assert Addrs(trees[i]) <= AllAddrs(trees);
    assert Addrs(t) !! (AllAddrs(trees) - Addrs(trees[i]));
    UpdateBin(head, link, treebins, treemap, trees, binsAt, least, i, link', t, treebins[i], treebins, treemap);
  }

  lemma FirstInBin(head: Heads, link: Links, cell: Addr, i: nat, x: Addr, s: nat)
    requires InBin(i, s)
    requires x in head && ChunkSize(head[x]) == s && x != 0
    ensures BinOk(head, link[x := TLinks(x, x, 0, 0, cell, i)], Node([x], s, Nil, Nil), x, cell, i)
    ensures Addrs(Node([x], s, Nil, Nil)) == {x}
  {
    BinBlock(i, s);
    assert RingSet([x]) == {x};
    assert RingLinked(link[x := TLinks(x, x, 0, 0, cell, i)], [x]);
  }

  /** A descent for size s has reached the subtree sub at address `at`, with steering word k. */
  ghost predicate Walking(head: Heads, link: Links, sub: Tree, at: Addr, p: Addr, i: nat, lo: nat, w: nat, s: nat,
      k: nat) {
    && sub.Node? && Fits(sub, lo, w, s) && w <= 32
    && Linked(link, sub, at, p, i) && Sized(head, sub)
    && k == SizeBits(s, lo, w)
  }

  lemma NonNull(link: Links, t: Tree, root: Addr, p: Addr, i: nat)
    requires Proper(t) && Linked(link, t, root, p, i)
    ensures root == 0 <==> t.Nil?
  {
    if t.Node? { assert t.ring[0] in t.ring; }
  }

  /** One step of the descent: the sign bit of the steering word picks the half that holds s. */
  lemma WalkStep(head: Heads, link: Links, sub: Tree, at: Addr, p: Addr, i: nat, lo: nat, w: nat, s: nat, k: nat)
    requires Walking(head, link, sub, at, p, i, lo, w, s, k)
    ensures at in head && at in link && ChunkSize(head[at]) == sub.size && sub.ring[0] == at
    ensures sub.size != s ==> w > 0
    ensures sub.size != s ==>
              var right := lo + Pow2(w - 1) <= s;
              var lo' := if right then lo + Pow2(w - 1) else lo;
              var next, c := Subtree(sub, right), GetChild(link[at], right);
              && (k / 0x8000_0000 % 2 == 1 <==> right)
              && (c == 0 <==> next.Nil?)
              && (c != 0 ==> Walking(head, link, next, c, at, i, lo', w - 1, s, k * 2 % WORD))
  {
    if sub.size != s {
      SizeBitsStep(s, lo, w);
      NonNull(link, sub.left, link[at].child0, at, i);
      NonNull(link, sub.right, link[at].child1, at, i);
    }
  }

  lemma SlotStep(head: Heads, link: Links, sub: Tree, at: Addr, p: Addr, i: nat, lo: nat, w: nat, s: nat, k: nat)
    requires Walking(head, link, sub, at, p, i, lo, w, s, k)
    ensures at in head && at in link
    ensures ChunkSize(head[at]) == s ==> FindSlot(sub, lo, w, s) == Join(at)
    ensures ChunkSize(head[at]) != s ==>
              var right := k / 0x8000_0000 % 2 == 1;
              var c := GetChild(link[at], right);
              && (c == 0 ==> FindSlot(sub, lo, w, s) == Hang(at, right))
              && (c != 0 ==>
                    && w > 0 && var lo' := if right then lo + Pow2(w - 1) else lo;
                    && Walking(head, link, Subtree(sub, right), c, at, i, lo', w - 1, s, k * 2 % WORD)
                    && FindSlot(sub, lo, w, s) == FindSlot(Subtree(sub, right), lo', w - 1, s))
  {
    WalkStep(head, link, sub, at, p, i, lo, w, s, k);
    if sub.size != s { InsertStep(sub, lo, w, 0, s); }
  }

  /** The descent starts at the root of bin TreeIndex(s). */
  lemma WalkStart(head: Heads, link: Links, t: Tree, root: Addr, cell: Addr, i: nat, s: nat)
    requires InBin(i, s)
    requires BinOk(head, link, t, root, cell, i) && t.Node?
    ensures Walking(head, link, t, root, cell, i, BinLo(i), BinBits(i), s, Shl32(s, LeftShift(i)))
  {
    FitsBin(head, link, t, root, cell, i, s);
    SizeBitsStart(s, i);
  }

  /* ---- Removal ---- */

  /** The subtree holding x on its ring is itself linked, and x has a parent exactly when it heads that ring. */
  lemma {:induction false} SubAtLinked(m: Links, t: Tree, root: Addr, parent: Addr, idx: nat, x: Addr)
    requires Proper(t) && Linked(m, t, root, parent, idx) && x in Addrs(t) && parent != 0
    ensures var sub := SubAt(t, x); var h := sub.ring[0];
            && h in m && Linked(m, sub, h, m[h].parent, idx)
            && x in m && (m[x].parent != 0 <==> x == h)
            && (x == h && x != root ==> m[x].parent in m)
            && (x == root ==> sub == t)
  {
    if x in t.ring {
      assert t.ring[IndexOf(t.ring, x)] == x;
    } else {
      var right := x !in Addrs(t.left);
      assert root in RingSet(t.ring);
      assert root != 0;
      SubAtLinked(m, Subtree(t, right), GetChild(m[root], right), root, idx, x);
    }
  }

  /** The first part of the removal leaves what the second part needs. */
  lemma DetachCan(m: Links, sub: Tree, h: Addr, p: Addr, idx: nat, x: Addr, isTop: bool)
    requires sub.Node? && Proper(sub) && x in sub.ring && Linked(m, sub, h, p, idx)
    requires x in m && (m[x].parent != 0 <==> x == h) && (x == h && !isTop ==> p in m)
    ensures CanReplace(Detach(m, sub, x), x, Successor(m, sub, x), isTop)
    ensures Detach(m, sub, x)[x].parent == m[x].parent
  {
    if x == h {
      DetachRoot(m, sub, h, p, idx);
      var t' := UnlinkTree(sub, h);
      assert t'.Node? ==> RootOf(t') in t'.ring;
    } else {
      RingOut(m, sub.ring, IndexOf(sub.ring, x), idx);
    }
  }

  /** The children of x, where it has any, are chunks of the bins. */
  ghost predicate ChildrenIn(m: Links, x: Addr) {
    && x in m
    && (m[x].child0 != 0 ==> m[x].child0 in m)
    && (m[x].child1 != 0 ==> m[x].child1 in m)
  }

  lemma DetachChildren(m: Links, sub: Tree, h: Addr, p: Addr, idx: nat, x: Addr)
    requires sub.Node? && Proper(sub) && x in sub.ring && Linked(m, sub, h, p, idx)
    ensures ChildrenIn(m, x) && ChildrenIn(Detach(m, sub, x), x)
    ensures Detach(m, sub, x).Keys == m.Keys
  {
    assert sub.ring[IndexOf(sub.ring, x)] == x;
    assert ChildrenIn(m, x) by {
      NonNull(m, sub.left, m[h].child0, h, idx);
      NonNull(m, sub.right, m[h].child1, h, idx);
    }
    hide Linked, LeafSlot, Proper;
  }

  lemma SomeTree(t: Tree, x: Addr)
    requires x in Addrs(t)
    ensures t.Node?
  {
  }

  lemma InsideSame(m: Links, m': Links, least: Addr)
    requires Inside(m, least) && m'.Keys == m.Keys
    ensures Inside(m', least)
  {
  }

  lemma UnlinkBinOk(head: Heads, link: Links, t: Tree, root: Addr, cell: Addr, i: nat, x: Addr)
    requires i < NTREEBINS && BinOk(head, link, t, root, cell, i) && x in Addrs(t)
    requires cell != 0 && 0 !in link && cell !in link
    ensures x in link
    ensures var link', t' := UnlinkLinks(link, t, x, x == root), UnlinkTree(t, x);
            && BinOk(head, link', t', if x == root then RootOf(t') else root, cell, i)
            && link'.Keys == link.Keys && SameExcept(link, link', Addrs(t))
            && Addrs(t') == Addrs(t) - {x}
            && (x != root ==> t'.Node?)
  {
    LinkedIn(link, t, root, cell, i);
    UnlinkKeeps(t, x);
    UnlinkInTrie(t, BinLo(i), BinBits(i), x);
    UnlinkSized(head, t, x);
    UnlinkLinked(link, t, root, cell, i, x, x == root);
  }

  lemma UnlinkBinsOk(head: Heads, link: Links, treebins: seq<Addr>, treemap: BinMap, trees: seq<Tree>, binsAt: Addr,
      least: Addr, i: nat, x: Addr)
    requires BinsOk(head, link, treebins, treemap, trees, binsAt, least) && i < NTREEBINS && x in Addrs(trees[i])
    ensures x in link
    ensures var t' := UnlinkTree(trees[i], x);
            var root := if x == treebins[i] then RootOf(t') else treebins[i];
            && BinsOk(head, UnlinkLinks(link, trees[i], x, x == treebins[i]), treebins[i := root],
                treemap[i := t'.Node?], trees[i := t'], binsAt, least)
            && AllAddrs(trees[i := t']) == AllAddrs(trees) - {x}
            && (x != treebins[i] ==> t'.Node?) && Proper(t')
  {
    hide Linked, InTrie, Sized, UnlinkLinks, UnlinkTree, InBin;
    var t, cell := trees[i], Cell(binsAt, i);
    UnlinkBinOk(head, link, t, treebins[i], cell, i, x);
    var t' := UnlinkTree(t, x);
    var root := if x == treebins[i] then RootOf(t') else treebins[i];
    UpdateBin(head, link, treebins, treemap, trees, binsAt, least, i, UnlinkLinks(link, t, x, x == treebins[i]), t',
        root, treebins[i := root], treemap[i := t'.Node?]);
    assert Addrs(t) <= AllAddrs(trees);
  }

  /** The two parts of the removal compose to UnlinkLinks. */
  lemma UnlinkPlan(link: Links, t: Tree, root: Addr, cell: Addr, i: nat, x: Addr)
    requires Proper(t) && Linked(link, t, root, cell, i) && x in Addrs(t) && cell != 0
    ensures var sub := SubAt(t, x); var h := sub.ring[0];
            && h in link && x in link && Linked(link, sub, h, link[h].parent, i)
            && var m1, r := Detach(link, sub, x), Successor(link, sub, x);
            && CanReplace(m1, x, r, x == root)
            && UnlinkLinks(link, t, x, x == root) == ReplaceLinks(m1, x, r, x == root)
            && (x == root ==> r == RootOf(UnlinkTree(t, x)) && m1[x].parent != 0)
  {
    SubAtLinked(link, t, root, cell, i, x);
    var sub := SubAt(t, x);
    DetachCan(link, sub, sub.ring[0], link[sub.ring[0]].parent, i, x, x == root);
    if x == root { DetachRoot(link, t, root, cell, i); }
  }

  /** The index word of a binned chunk names its bin. */
  lemma BinOfChunk(head: Heads, link: Links, treebins: seq<Addr>, treemap: BinMap, trees: seq<Tree>, binsAt: Addr,
      least: Addr, x: Addr)
    requires BinsOk(head, link, treebins, treemap, trees, binsAt, least) && x in AllAddrs(trees)
    ensures x in link && link[x].index < NTREEBINS && x in Addrs(trees[link[x].index])
  {
    var i :| 0 <= i < |trees| && x in Addrs(trees[i]);
    LinkedIn(link, trees[i], treebins[i], Cell(binsAt, i), i);
  }

  lemma BinLinked(head: Heads, link: Links, treebins: seq<Addr>, treemap: BinMap, trees: seq<Tree>, binsAt: Addr,
      least: Addr, i: nat)
    requires BinsOk(head, link, treebins, treemap, trees, binsAt, least) && i < NTREEBINS
    ensures |trees| == |treebins| == NTREEBINS && Proper(trees[i]) &&
        Linked(link, trees[i], treebins[i], Cell(binsAt, i), i)
    ensures Inside(link, least) && Cell(binsAt, i) != 0 && (treemap[i] <==> trees[i].Node?)
  {
    assert BinOk(head, link, trees[i], treebins[i], Cell(binsAt, i), i);
  }

  /** Looking for the rightmost leaf of t: it is below sub, reached through child pointer rp. */
  ghost predicate LeafSearch(link: Links, t: Tree, sub: Tree, r: Addr, p: Addr, i: nat, at: Addr, right: bool) {
    && t.Node? && Proper(t) && !IsLeaf(t)
    && sub.Node? && Proper(sub) && Linked(link, sub, r, p, i)
    && Leaf(sub) == Leaf(t)
    && (if IsLeaf(sub) then LeafSlot(t) == (at, right) else LeafSlot(t) == LeafSlot(sub))
  }

  lemma LeafSearchStep(link: Links, t: Tree, sub: Tree, r: Addr, p: Addr, i: nat, at: Addr, right: bool)
    requires LeafSearch(link, t, sub, r, p, i, at, right)
    ensures r in link
    ensures link[r].child1 != 0 ==> LeafSearch(link, t, sub.right, link[r].child1, r, i, r, true)
    ensures link[r].child1 == 0 && link[r].child0 != 0 ==> LeafSearch(link, t, sub.left, link[r].child0, r, i, r, false)
    ensures link[r].child1 == 0 && link[r].child0 == 0 ==> IsLeaf(sub) && r == RootOf(Leaf(t))
  {
    NonNull(link, sub.left, link[r].child0, r, i);
    NonNull(link, sub.right, link[r].child1, r, i);
  }

  lemma LeafSearchStart(link: Links, t: Tree, x: Addr, p: Addr, i: nat)
    requires t.Node? && Proper(t) && Linked(link, t, x, p, i)
    ensures link[x].child1 == 0 && link[x].child0 == 0 <==> IsLeaf(t)
    ensures link[x].child1 != 0 ==> LeafSearch(link, t, t.right, link[x].child1, x, i, x, true)
    ensures link[x].child1 == 0 && link[x].child0 != 0 ==> LeafSearch(link, t, t.left, link[x].child0, x, i, x, false)
  {
    NonNull(link, t.left, link[x].child0, x, i);
    NonNull(link, t.right, link[x].child1, x, i);
  }

  lemma RootNull(t: Tree)
    requires Proper(t)
    ensures RootOf(t) == 0 <==> t.Nil?
  {
    if t.Node? { assert t.ring[0] in t.ring; }
  }

  /* ---- Best fit ---- */

  /** t has chunks, all of size at most z. */
  ghost predicate Below(t: Tree, z: nat) {
    t.Node? && forall u | u in Sizes(t) :: u <= z
  }

  ghost predicate NoneUnder(t: Tree, nb: nat) {
    forall u | u in Sizes(t) :: nb <= u
  }

  /** Every size of s that is at least nb is no better than best, or in sub, or no better than those in rst. */
  ghost predicate Covers(s: set<nat>, nb: nat, best: nat, sub: Tree, rst: Tree) {
    forall z | z in s && nb <= z :: best <= z || z in Sizes(sub) || z in Sizes(rst) || Below(rst, z)
  }

  /** v is the chunk of size best found so far among `in_`; WORD stands for none. */
  ghost predicate Candidate(head: Heads, in_: set<Addr>, nb: nat, v: Addr, best: nat) {
    && nb <= best <= WORD
    && (v == 0 <==> best == WORD)
    && (v != 0 ==> v in in_ && v in head && ChunkSize(head[v]) == best)
  }

  /** Trying one more chunk: the unsigned comparison of remainders picks the better fit. */
  lemma TryChunk(size: nat, nb: nat, best: nat)
    requires 0 < nb <= best <= WORD && size < WORD
    ensures Sub32(size, nb) < best - nb <==> nb <= size < best
    ensures nb <= size ==> Sub32(size, nb) == size - nb
  {
  }

  lemma {:induction false} AddrSize(head: Heads, t: Tree, a: Addr)
    requires Sized(head, t) && a in Addrs(t)
    ensures a in head && ChunkSize(head[a]) in Sizes(t)
  {
    match t
    case Nil =>
    case Node(ring, _, l, r) =>
      if a in ring {
      } else if a in Addrs(l) {
        AddrSize(head, l, a);
      } else {
        AddrSize(head, r, a);
      }
  }

  /** One step down the search path of tmalloc_large, after the node itself has been tried. */
  lemma PathStep(all: set<nat>, nb: nat, best: nat, sub: Tree, rst: Tree, lo: nat, w: nat)
    requires sub.Node? && InTrie(sub, lo, w) && w > 0 && lo <= nb < lo + Pow2(w)
    requires Covers(all, nb, best, sub, rst) && (nb <= sub.size ==> best <= sub.size)
    requires forall u | u in Sizes(rst) :: lo + Pow2(w) <= u
    ensures var right := lo + Pow2(w - 1) <= nb;
            && (right ==> Covers(all, nb, best, sub.right, rst))
            && (!right && sub.right.Nil? ==> Covers(all, nb, best, sub.left, rst))
            && (!right && sub.right.Node? ==> Covers(all, nb, best, sub.left, sub.right))
            && (!right ==> forall u | u in Sizes(sub.right) :: lo + Pow2(w - 1) <= u)
  {
    SizesInRange(sub.left, lo, w - 1);
    SizesInRange(sub.right, lo + Pow2(w - 1), w - 1);
    SizesInRange(sub, lo, w);
    forall z | z in all && nb <= z && best > z && z !in Sizes(sub.left) && z !in Sizes(sub.right)
      ensures z in Sizes(rst) || Below(rst, z)
      ensures sub.right.Node? ==> Below(sub.right, z)
    {
      assert z !in Sizes(sub);
      assert rst.size in Sizes(rst);
    }
  }

  /** One step down the leftmost path, after the node itself has been tried. */
  lemma LeftmostStep(all: set<nat>, nb: nat, best: nat, sub: Tree, lo: nat, w: nat)
    requires sub.Node? && InTrie(sub, lo, w)
    requires Covers(all, nb, best, Nil, sub) && (nb <= sub.size ==> best <= sub.size)
    requires best == nb || NoneUnder(sub, nb)
    ensures Covers(all, nb, best, Nil, if sub.left.Node? then sub.left else sub.right)
  {
    if w > 0 {
      SizesInRange(sub.left, lo, w - 1);
      SizesInRange(sub.right, lo + Pow2(w - 1), w - 1);
    }
    var next := if sub.left.Node? then sub.left else sub.right;
    assert sub.size in Sizes(sub) && Sizes(next) <= Sizes(sub);
    forall z | z in all && nb <= z && best > z && z !in Sizes(next)
      ensures Below(next, z)
    {
      if z in Sizes(sub) {
        assert z != sub.size && z in Sizes(sub.right) && next == sub.left;
      }
    }
  }

  /** A subtree, its address and parent, and the block [lo, lo + 2^w) of sizes it divides. */
  datatype Spot = Spot(tree: Tree, at: Addr, parent: Addr, lo: nat, w: nat)

  ghost predicate SpotOk(head: Heads, link: Links, t: Tree, i: nat, spot: Spot) {
    && Proper(spot.tree) && Sized(head, spot.tree)
    && Linked(link, spot.tree, spot.at, spot.parent, i) && InTrie(spot.tree, spot.lo, spot.w)
    && Addrs(spot.tree) <= Addrs(t)
  }

  /** tmalloc_large's walk: cur is to be visited next, rst is the deepest untaken right subtree. */
  datatype Path = Path(cur: Spot, bits: nat, rst: Spot, v: Addr, best: nat)

  ghost predicate OnPath(head: Heads, link: Links, t: Tree, nb: nat, i: nat, s: Path) {
    && Walking(head, link, s.cur.tree, s.cur.at, s.cur.parent, i, s.cur.lo, s.cur.w, nb, s.bits)
    && SpotOk(head, link, t, i, s.cur)
    && SpotOk(head, link, t, i, s.rst)
    && (forall u | u in Sizes(s.rst.tree) :: s.cur.lo + Pow2(s.cur.w) <= u)
    && Candidate(head, Addrs(t), nb, s.v, s.best)
    && Covers(Sizes(t), nb, s.best, s.cur.tree, s.rst.tree)
  }

  /** What the walk has found, and the subtree (spot) whose leftmost path still has to be tried. */
  ghost predicate PathDone(head: Heads, link: Links, t: Tree, nb: nat, v: Addr, best: nat, i: nat, spot: Spot) {
    && Candidate(head, Addrs(t), nb, v, best)
    && SpotOk(head, link, t, i, spot)
    && Covers(Sizes(t), nb, best, Nil, spot.tree)
    && (best == nb || NoneUnder(spot.tree, nb))
    && (forall u | u in Sizes(spot.tree) :: u < WORD)
  }

  /** The chunk at the root of sub has been tried; v' and best' take it into account. */
  ghost predicate Tried(sub: Tree, at: Addr, nb: nat, v: Addr, best: nat, v': Addr, best': nat) {
    sub.Node? && (if nb <= sub.size < best then v' == at && best' == sub.size else v' == v && best' == best)
  }

  lemma TryKeeps(head: Heads, link: Links, t: Tree, nb: nat, i: nat, s: Path, v': Addr, best': nat)
    requires OnPath(head, link, t, nb, i, s) && Tried(s.cur.tree, s.cur.at, nb, s.v, s.best, v', best') &&
        s.cur.tree.size < WORD
    ensures OnPath(head, link, t, nb, i, s.(v := v', best := best'))
    ensures nb <= s.cur.tree.size ==> best' <= s.cur.tree.size
  {
    assert s.cur.at in RingSet(s.cur.tree.ring);
    RootNull(s.cur.tree);
  }

  /** The chunk to be visited: its size, and what the unsigned comparison of remainders says about it. */
  lemma CurChunk(head: Heads, link: Links, t: Tree, nb: nat, i: nat, s: Path)
    requires OnPath(head, link, t, nb, i, s) && 0 < nb < WORD && Sized(head, t) && forall u | u in Sizes(t) :: u < WORD
    ensures s.cur.at in head && ChunkSize(head[s.cur.at]) == s.cur.tree.size < WORD
    ensures Sub32(s.cur.tree.size, nb) < s.best - nb <==> nb <= s.cur.tree.size < s.best
    ensures nb <= s.cur.tree.size ==> Sub32(s.cur.tree.size, nb) == s.cur.tree.size - nb
    ensures s.best == nb ==> s.cur.tree.size <= WORD
  {
    var cur := s.cur;
    WalkStep(head, link, cur.tree, cur.at, cur.parent, i, cur.lo, cur.w, nb, s.bits);
    SizesSubset(head, t, cur.tree);
    TryChunk(cur.tree.size, nb, s.best);
  }

  /** The walk after it has tried its current chunk and gone to the side the steering bit names. */
  ghost function PathNext(link: Links, s: Path): Path
    requires s.cur.tree.Node? && s.cur.at in link && s.cur.w > 0
  {
    var right := s.bits / 0x8000_0000 % 2 == 1;
    var next, rt := ChildSpot(link, s.cur, right), ChildSpot(link, s.cur, true);
    s.(cur := next, bits := s.bits * 2 % WORD, rst := if rt.at != 0 && rt.at != next.at then rt else s.rst)
  }

  ghost function ChildSpot(link: Links, spot: Spot, right: bool): Spot
    requires spot.tree.Node? && spot.at in link && spot.w > 0
  {
    Spot(Subtree(spot.tree, right), GetChild(link[spot.at], right), spot.at,
         if right then spot.lo + Pow2(spot.w - 1) else spot.lo, spot.w - 1)
  }

  lemma ChildSpotOk(head: Heads, link: Links, t: Tree, i: nat, spot: Spot, right: bool)
    requires SpotOk(head, link, t, i, spot) && spot.tree.Node? && spot.w > 0
    ensures spot.at in link
    ensures SpotOk(head, link, t, i, ChildSpot(link, spot, right))
    ensures ChildSpot(link, spot, right).at == 0 <==> Subtree(spot.tree, right).Nil?
  {
    NonNull(link, Subtree(spot.tree, right), GetChild(link[spot.at], right), spot.at, i);
  }

  lemma PathDown(head: Heads, link: Links, t: Tree, nb: nat, i: nat, s: Path)
    requires OnPath(head, link, t, nb, i, s)
    requires s.cur.tree.size != nb && (nb <= s.cur.tree.size ==> s.best <= s.cur.tree.size)
    ensures s.cur.at in link && s.cur.w > 0
    ensures var s' := PathNext(link, s);
            && (s'.cur.at == 0 <==> s'.cur.tree.Nil?)
            && (s'.cur.at != 0 ==> OnPath(head, link, t, nb, i, s'))
            && SpotOk(head, link, t, i, s'.rst)
            && Covers(Sizes(t), nb, s.best, s'.cur.tree, s'.rst.tree)
            && NoneUnder(s'.rst.tree, nb)
  {
    var cur := s.cur;
    WalkStep(head, link, cur.tree, cur.at, cur.parent, i, cur.lo, cur.w, nb, s.bits);
    ChildSpotOk(head, link, t, i, cur, false);
    ChildSpotOk(head, link, t, i, cur, true);
    ChildrenDiffer(link, cur.tree, cur.at, cur.parent, i);
    PathStep(Sizes(t), nb, s.best, cur.tree, s.rst.tree, cur.lo, cur.w);
  }

  lemma PathEnds(head: Heads, link: Links, t: Tree, nb: nat, i: nat, s: Path)
    requires Candidate(head, Addrs(t), nb, s.v, s.best) && Sized(head, t) && forall u | u in Sizes(t) :: u < WORD
    ensures s.best == nb && SpotOk(head, link, t, i, s.cur) ==> PathDone(head, link, t, nb, s.v, s.best, i, s.cur)
    ensures (&& SpotOk(head, link, t, i, s.rst) && Covers(Sizes(t), nb, s.best, Nil, s.rst.tree)
             && NoneUnder(s.rst.tree, nb)) ==> PathDone(head, link, t, nb, s.v, s.best, i, s.rst)
  {
    if SpotOk(head, link, t, i, s.cur) { SizesSubset(head, t, s.cur.tree); }
    if SpotOk(head, link, t, i, s.rst) { SizesSubset(head, t, s.rst.tree); }
  }

  lemma ChildrenDiffer(link: Links, sub: Tree, at: Addr, p: Addr, i: nat)
    requires sub.Node? && Proper(sub) && Linked(link, sub, at, p, i)
    ensures link[at].child1 != 0 ==> link[at].child0 != link[at].child1
  {
    LinkedIn(link, sub.left, link[at].child0, at, i);
    LinkedIn(link, sub.right, link[at].child1, at, i);
  }

  lemma {:induction false} SizesSubset(head: Heads, t: Tree, sub: Tree)
    requires Sized(head, t) && Sized(head, sub) && Proper(sub) && Addrs(sub) <= Addrs(t)
    ensures Sizes(sub) <= Sizes(t)
  {
    match sub
    case Nil =>
    case Node(ring, size, l, r) =>
      assert ring[0] in RingSet(ring);
      AddrSize(head, t, ring[0]);
      SizesSubset(head, t, l);
      SizesSubset(head, t, r);
  }

  lemma LeftmostDown(head: Heads, link: Links, t: Tree, nb: nat, v: Addr, best: nat, i: nat, spot: Spot, v': Addr,
      best': nat)
    requires PathDone(head, link, t, nb, v, best, i, spot) && spot.tree.Node?
    requires Tried(spot.tree, spot.at, nb, v, best, v', best')
    ensures spot.at in link
    ensures var sub, at := spot.tree, spot.at;
            var c := if link[at].child0 != 0 then link[at].child0 else link[at].child1;
            var next := if sub.left.Node? then sub.left else sub.right;
            && (c == 0 <==> next.Nil?)
            && exists lo', w' :: PathDone(head, link, t, nb, v', best', i, Spot(next, c, at, lo', w'))
  {
    var sub, at, lo, w := spot.tree, spot.at, spot.lo, spot.w;
    NonNull(link, sub.left, link[at].child0, at, i);
    NonNull(link, sub.right, link[at].child1, at, i);
    var next := if sub.left.Node? then sub.left else sub.right;
    var c := if link[at].child0 != 0 then link[at].child0 else link[at].child1;
    assert at in RingSet(sub.ring) && sub.size in Sizes(sub) && Sizes(next) <= Sizes(sub);
    assert NoneUnder(sub, nb) ==> NoneUnder(next, nb);
    RootNull(sub);
    assert Covers(Sizes(t), nb, best', Nil, sub);
    LeftmostStep(Sizes(t), nb, best', sub, lo, w);
    if w == 0 {
      assert PathDone(head, link, t, nb, v', best', i, Spot(next, c, at, 0, 0));
    } else {
      assert PathDone(head, link, t, nb, v', best', i,
          Spot(next, c, at, if sub.left.Node? then lo else lo + Pow2(w - 1), w - 1));
    }
  }

  /** Bins are ordered by the sizes they hold. */
  lemma BinOrder(i: nat, s: nat, j: nat, z: nat)
    requires InBin(i, s) && InBin(j, z) && i < j
    ensures s < z
  {
    MinSizeMono(i + 1, j);
  }

  /** v is the smallest chunk of `all` that holds nb bytes, or null when there is none. */
  ghost predicate IsBestFit(head: Heads, all: set<Addr>, nb: nat, v: Addr) {
    if v == 0 then forall a | a in all :: a in head && ChunkSize(head[a]) < nb
    else
      && v in all && v in head && nb <= ChunkSize(head[v]) < WORD
      && forall a | a in all :: a in head && (nb <= ChunkSize(head[a]) ==> ChunkSize(head[v]) <= ChunkSize(head[a]))
  }

  /** No chunk of the tree holds nb bytes. */
  ghost predicate NoneAtLeast(t: Tree, nb: nat) {
    forall z | z in Sizes(t) :: z < nb
  }

  /** The best fit of one bin is the best fit of all, once the bins from that of nb up to it have none. */
  lemma BestOfBins(head: Heads, link: Links, treebins: seq<Addr>, treemap: BinMap, trees: seq<Tree>, binsAt: Addr,
      least: Addr, nb: nat, idx: nat, b: nat, v: Addr, best: nat)
    requires BinsOk(head, link, treebins, treemap, trees, binsAt, least) && InBin(idx, nb)
    requires idx <= b < NTREEBINS && forall j | idx <= j < b :: NoneAtLeast(trees[j], nb)
    requires Candidate(head, Addrs(trees[b]), nb, v, best) && forall z | z in Sizes(trees[b]) && nb <= z :: best <= z
    requires v == 0 ==> forall j | b < j < NTREEBINS :: trees[j].Nil?
    ensures IsBestFit(head, AllAddrs(trees), nb, v)
  {
    if v != 0 {
      AddrSize(head, trees[b], v);
      assert Addrs(trees[b]) <= AllAddrs(trees);
    }
    forall a | a in AllAddrs(trees)
      ensures a in head && (nb <= ChunkSize(head[a]) ==> v != 0 && best <= ChunkSize(head[a]))
    {
      var j :| 0 <= j < |trees| && a in Addrs(trees[j]);
      AddrSize(head, trees[j], a);
      var z := ChunkSize(head[a]);
      if j < idx {
        BinOrder(j, z, idx, nb);
      } else if j < b {
        assert NoneAtLeast(trees[j], nb);
      } else if j > b {
        BinOrder(b, best, j, z);
      }
    }
  }

  /** A walk that found nothing, and has nothing left to try, has seen a bin without a sufficient chunk. */
  lemma NothingThere(head: Heads, link: Links, treebins: seq<Addr>, treemap: BinMap, trees: seq<Tree>, binsAt: Addr,
      least: Addr, nb: nat, i: nat, best: nat, spot: Spot)
    requires BinsOk(head, link, treebins, treemap, trees, binsAt, least) && i < NTREEBINS
    requires PathDone(head, link, trees[i], nb, 0, best, i, spot) && spot.at == 0
    ensures NoneAtLeast(trees[i], nb) && Candidate(head, Addrs(trees[i]), nb, 0, best)
  {
    NonNull(link, spot.tree, 0, spot.parent, i);
    assert BinOk(head, link, trees[i], treebins[i], Cell(binsAt, i), i);
  }

  /** All of a later bin is still to be searched, and all of it is large enough. */
  lemma WholeBin(head: Heads, link: Links, treebins: seq<Addr>, treemap: BinMap, trees: seq<Tree>, binsAt: Addr,
      least: Addr, nb: nat, idx: nat, i: nat, best: nat)
    requires BinsOk(head, link, treebins, treemap, trees, binsAt, least) && InBin(idx, nb) && idx < i < NTREEBINS &&
        treemap[i]
    requires Candidate(head, Addrs(trees[idx]), nb, 0, best)
    ensures trees[i].Node? && NoneUnder(trees[i], nb)
    ensures PathDone(head, link, trees[i], nb, 0, best, i,
        Spot(trees[i], treebins[i], Cell(binsAt, i), BinLo(i), BinBits(i)))
  {
    hide Linked, Proper, Sized, InTrie;
    assert BinOk(head, link, trees[i], treebins[i], Cell(binsAt, i), i);
    forall u | u in Sizes(trees[i]) ensures nb <= u { BinOrder(idx, nb, i, u); }
  }

  /** A walk that ended at a chunk, or at a subtree still to try, comes back with a chunk. */
  lemma FitFound(head: Heads, link: Links, t: Tree, b: nat, nb: nat, v0: Addr, best0: nat, spot: Spot, v: Addr,
      best: nat)
    requires Sized(head, t) && PathDone(head, link, t, nb, v0, best0, b, spot)
    requires Candidate(head, Addrs(t), nb, v, best) && forall z | z in Sizes(t) && nb <= z :: best <= z
    requires (v0 != 0 || spot.at != 0) && nb < WORD
    ensures v != 0
  {
    if v0 != 0 {
      AddrSize(head, t, v0);
    } else {
      SizesSubset(head, t, spot.tree);
      assert NoneUnder(spot.tree, nb) && spot.tree.size in Sizes(spot.tree);
    }
  }

  /** The smallest chunk of the first non-empty bin is the smallest of all. */
  lemma SmallestOfBins(head: Heads, link: Links, treebins: seq<Addr>, treemap: BinMap, trees: seq<Tree>, binsAt: Addr,
      least: Addr, nb: nat, b: nat, v: Addr, best: nat)
    requires BinsOk(head, link, treebins, treemap, trees, binsAt, least) && nb <= MIN_LARGE_SIZE
    requires b < NTREEBINS && forall j | 0 <= j < b :: trees[j].Nil?
    requires Candidate(head, Addrs(trees[b]), nb, v, best) && v != 0 &&
        forall z | z in Sizes(trees[b]) && nb <= z :: best <= z
    ensures IsBestFit(head, AllAddrs(trees), nb, v)
  {
    AddrSize(head, trees[b], v);
    assert Addrs(trees[b]) <= AllAddrs(trees);
    forall a | a in AllAddrs(trees) ensures a in head && best <= ChunkSize(head[a]) {
      var j :| 0 <= j < |trees| && a in Addrs(trees[j]);
      AddrSize(head, trees[j], a);
      if j > b { BinOrder(b, best, j, ChunkSize(head[a])); }
    }
  }

  /* ---- The run-time checks on link words ---- */

  /**
    The checks of unlink_large_chunk and insert_large_chunk on the links of chunk a pass; only a root's parent is no
    chunk.
   */
  ghost predicate TreeLinksPass(m: Links, a: Addr, root: Addr, cell: Addr, least: Addr) {
    && a in m && OkAddress(least, a) && OkAddress(least, m[a].fd) && OkAddress(least, m[a].bk)
    && (m[a].child0 != 0 ==> OkAddress(least, m[a].child0))
    && (m[a].child1 != 0 ==> OkAddress(least, m[a].child1))
    && (m[a].parent == 0 || OkAddress(least, m[a].parent) || (a == root && m[a].parent == cell))
  }

  lemma {:induction false} LinksInTree(m: Links, t: Tree, root: Addr, parent: Addr, idx: nat, least: Addr, a: Addr)
    requires Proper(t) && Linked(m, t, root, parent, idx) && Inside(m, least) && a in Addrs(t)
    ensures TreeLinksPass(m, a, root, parent, least)
  {
    if a in t.ring {
      RingEnds(m, t.ring, IndexOf(t.ring, a));
      NonNull(m, t.left, m[root].child0, root, idx);
      NonNull(m, t.right, m[root].child1, root, idx);
      assert forall x | x in t.ring :: x in m;
    } else {
      var right := a !in Addrs(t.left);
      assert root in t.ring;
      LinksInTree(m, Subtree(t, right), GetChild(m[root], right), root, idx, least, a);
    }
  }

  lemma TreeChecksPass(head: Heads, link: Links, treebins: seq<Addr>, treemap: BinMap, trees: seq<Tree>, binsAt: Addr,
      least: Addr, a: Addr)
    requires BinsOk(head, link, treebins, treemap, trees, binsAt, least) && a in AllAddrs(trees)
    ensures a in link && link[a].index < |treebins|
    ensures TreeLinksPass(link, a, treebins[link[a].index], Cell(binsAt, link[a].index), least)
  {
    BinOfChunk(head, link, treebins, treemap, trees, binsAt, least, a);
    var i := link[a].index;
    BinLinked(head, link, treebins, treemap, trees, binsAt, least, i);
    LinksInTree(link, trees[i], treebins[i], Cell(binsAt, i), i, least, a);
  }

  class TreeBins {
    var link: Links
    var treebins: seq<Addr>
    var treemap: bv32
    ghost var trees: seq<Tree>
    /** Address of the bin cells, and the lowest chunk address (least_addr). */
    const binsAt: Addr
    const least: Addr

    ghost predicate Valid(head: Heads)
      reads this
    {
      BinsOk(head, link, treebins, BitsOf(treemap), trees, binsAt, least)
    }

    /** The chunks held in the tree bins. */
    ghost function Binned(): set<Addr>
      reads this
    {
      AllAddrs(trees)
    }

    constructor (binsAt: Addr, least: Addr)
      requires 0 < binsAt && binsAt + 4 * NTREEBINS <= least
      ensures forall head :: Valid(head)
      ensures Binned() == {} && this.binsAt == binsAt && this.least == least
    {
      this.binsAt, this.least := binsAt, least;
      link := map[];
      treebins := seq(NTREEBINS, _ => 0);
      treemap := 0;
      trees := seq(NTREEBINS, _ => Nil);
      NoMarks();
    }

    /** The search loop of insert_large_chunk, from the root of a non-empty bin. */
    method SearchSlot(head: Heads, root: Addr, bits: nat, s: nat, ghost t: Tree, ghost p0: Addr, ghost i: nat,
        ghost lo0: nat, ghost w0: nat)
      returns (slot: Slot)
      requires Walking(head, link, t, root, p0, i, lo0, w0, s, bits)
      ensures slot == FindSlot(t, lo0, w0, s)
    {
      var at: Addr, k: nat := root, bits;
      ghost var sub, p := t, p0;
      ghost var lo: nat, w: nat := lo0, w0;
      while true
        invariant Walking(head, link, sub, at, p, i, lo, w, s, k)
        invariant FindSlot(sub, lo, w, s) == FindSlot(t, lo0, w0, s)
        decreases sub
      {
        SlotStep(head, link, sub, at, p, i, lo, w, s, k);
        if ChunkSize(head[at]) == s {
          return Join(at);
        }
        var right := k / 0x8000_0000 % 2 == 1;
        k := k * 2 % WORD;
        var c := GetChild(link[at], right);
        if c == 0 {
          return Hang(at, right);
        }
        lo := if right then lo + Pow2(w - 1) else lo;
        sub, w, p := Subtree(sub, right), w - 1, at;
        at := c;
      }
    }

    /** The link writes at the place the search found. */
    method WriteSlot(slot: Slot, x: Addr, i: nat)
      requires slot.at in link && (slot.Join? ==> link[slot.at].fd in link) && Inside(link, least)
      modifies this`link
      ensures link == InsertLinks(old(link), slot, x, i)
    {
      match slot {
        case Hang(at, right) =>
          assert OkAddress(least, ChildCell(at, right));
          link := link[at := SetChild(link[at], right, x)];
          link := link[x := TLinks(x, x, 0, 0, at, i)];
        case Join(at) =>
          var f := link[at].fd;
          assert OkAddress(least, at) && OkAddress(least, f);
          link := link[f := link[f].(bk := x)];
          link := link[at := link[at].(fd := x)];
          link := link[x := TLinks(f, at, 0, 0, 0, i)];
      }
    }

    /** insert_large_chunk, empty bin. */
    method InsertFirst(head: Heads, x: Addr, s: nat, i: nat)
      requires Valid(head) && x in head && ChunkSize(head[x]) == s
      requires x !in Binned() && least <= x && InBin(i, s) && !BitsOf(treemap)[i]
      modifies this
      ensures Valid(head) && Binned() == old(Binned()) + {x}
    {
      hide Marked, Mark, Clear, BitsOf;
      FirstInBin(head, link, Cell(binsAt, i), i, x, s);
      ghost var t' := Node([x], s, Nil, Nil);
      MarkBits(treemap, i);
      UpdateBin(head, link, treebins, BitsOf(treemap), trees, binsAt, least, i,
                link[x := TLinks(x, x, 0, 0, Cell(binsAt, i), i)], t', x, treebins[i := x], BitsOf(Mark(treemap, i)));
      treemap := Mark(treemap, i);
      treebins := treebins[i := x];
      link := link[x := TLinks(x, x, 0, 0, Cell(binsAt, i), i)];
      trees := trees[i := t'];
    }

    /** insert_large_chunk, bin already in use. */
    method InsertMore(head: Heads, x: Addr, s: nat, i: nat)
      requires Valid(head) && x in head && ChunkSize(head[x]) == s
      requires x !in Binned() && least <= x && InBin(i, s) && BitsOf(treemap)[i]
      modifies this
      ensures Valid(head) && Binned() == old(Binned()) + {x}
    {
      hide InsertTree, FindSlot, InsertLinks, Linked, Proper, InTrie, Sized, MinSize, Marked, BitsOf;
      ghost var t, lo, w := trees[i], BinLo(i), BinBits(i);
      WalkStart(head, link, t, treebins[i], Cell(binsAt, i), i, s);
      var slot := SearchSlot(head, treebins[i], Shl32(s, LeftShift(i)), s, t, Cell(binsAt, i), i, lo, w);
      InsertBinsOk(head, link, treebins, BitsOf(treemap), trees, binsAt, least, i, x, s, slot);
      WriteSlot(slot, x, i);
      trees := trees[i := InsertTree(t, lo, w, x, s)];
    }

    /** insert_large_chunk. */
    method InsertLarge(head: Heads, x: Addr, s: nat)
      requires Valid(head)
      requires x in head && ChunkSize(head[x]) == s && MIN_LARGE_SIZE <= s < WORD
      requires x !in Binned() && least <= x
      modifies this
      ensures Valid(head)
      ensures Binned() == old(Binned()) + {x}
    {
      var i := TreeIndex(s);
      TreeIndexCorrect(s);
      hide Marked, BitsOf;
      if !Marked(treemap, i) {
        InsertFirst(head, x, s, i);
      } else {
        InsertMore(head, x, s, i);
      }
    }

    /** The search of unlink_large_chunk for the leaf that replaces x. */
    method FindLeaf(x: Addr, ghost t: Tree, ghost p0: Addr, ghost i: nat) returns (r: Addr, at: Addr, right: bool)
      requires t.Node? && Proper(t) && !IsLeaf(t) && Linked(link, t, x, p0, i)
      ensures r == RootOf(Leaf(t)) && (at, right) == LeafSlot(t)
    {
      LeafSearchStart(link, t, x, p0, i);
      ghost var sub, p := t, x;
      if link[x].child1 != 0 {
        r, at, right := link[x].child1, x, true;
        sub := t.right;
      } else {
        r, at, right := link[x].child0, x, false;
        sub := t.left;
      }
      while true
        invariant LeafSearch(link, t, sub, r, p, i, at, right)
        decreases sub
      {
        LeafSearchStep(link, t, sub, r, p, i, at, right);
        if link[r].child1 != 0 {
          sub, p := sub.right, r;
          at, right, r := r, true, link[r].child1;
        } else if link[r].child0 != 0 {
          sub, p := sub.left, r;
          at, right, r := r, false, link[r].child0;
        } else {
          return;
        }
      }
    }

    /** First part of unlink_large_chunk: take x off its ring, or cut off its replacement. */
    method DetachChunk(x: Addr, ghost sub: Tree, ghost p: Addr, ghost i: nat) returns (r: Addr)
      requires sub.Node? && Proper(sub) && x in sub.ring && Linked(link, sub, sub.ring[0], p, i) && Inside(link, least)
      modifies this`link
      ensures x in old(link) && link == Detach(old(link), sub, x) && r == Successor(old(link), sub, x)
    {
      RingEnds(link, sub.ring, IndexOf(sub.ring, x));
      if link[x].bk != x {
        var f := link[x].fd;
        r := link[x].bk;
        assert OkAddress(least, f);
        link := link[f := link[f].(bk := r)];
        link := link[r := link[r].(fd := f)];
      } else {
        assert x == sub.ring[0];
        LeafSearchStart(link, sub, x, p, i);
        if link[x].child1 != 0 || link[x].child0 != 0 {
          PopLeafLinked(link, sub, x, p, i);
          var at: Addr, right: bool;
          r, at, right := FindLeaf(x, sub, p, i);
          assert OkAddress(least, ChildCell(at, right));
          link := CutChild(link, at, right);
        } else {
          r := 0;
        }
      }
    }

    /** Second part of unlink_large_chunk: re-hang x's parent and children on r. */
    method ReplaceChunk(x: Addr, r: Addr, i: nat)
      requires i < |treebins| && i < 32 && CanReplace(link, x, r, x == treebins[i]) && Inside(link, least) &&
          ChildrenIn(link, x)
      modifies this`link, this`treebins, this`treemap
      ensures link == ReplaceLinks(old(link), x, r, x == old(treebins)[i])
      ensures var top := old(link)[x].parent != 0 && x == old(treebins)[i];
              && treebins == (if top then old(treebins)[i := r] else old(treebins))
              && treemap == (if top && r == 0 then Clear(old(treemap), i) else old(treemap))
    {
      var xp := link[x].parent;
      if xp != 0 {
        if x == treebins[i] {
          treebins := treebins[i := r];
          if r == 0 {
            treemap := Clear(treemap, i);
          }
        } else {
          assert OkAddress(least, xp);
          if link[xp].child0 == x {
            link := link[xp := link[xp].(child0 := r)];
          } else {
            link := link[xp := link[xp].(child1 := r)];
          }
        }
        if r != 0 {
          assert OkAddress(least, r);
          link := SetParent(link, r, xp);
          assert link[x].child0 != 0 ==> OkAddress(least, link[x].child0);
          link := AdoptSide(link, x, r, false);
          assert link[x].child1 != 0 ==> OkAddress(least, link[x].child1);
          link := AdoptSide(link, x, r, true);
        }
      }
    }

    /** unlink_large_chunk. */
    method UnlinkLarge(head: Heads, x: Addr)
      requires Valid(head) && x in Binned()
      modifies this
      ensures Valid(head)
      ensures Binned() == old(Binned()) - {x}
    {
      hide Marked, Clear, BitsOf, BinsOk, Linked, Proper, Detach, Successor, ReplaceLinks, UnlinkLinks, UnlinkTree,
          AllAddrs, Inside;
      BinOfChunk(head, link, treebins, BitsOf(treemap), trees, binsAt, least, x);
      BinLinked(head, link, treebins, BitsOf(treemap), trees, binsAt, least, link[x].index);
      var i := link[x].index;
      ghost var t, root := trees[i], treebins[i];
      UnlinkBinsOk(head, link, treebins, BitsOf(treemap), trees, binsAt, least, i, x);
      MarkBits(treemap, i);
      UnlinkPlan(link, t, root, Cell(binsAt, i), i, x);
      ghost var sub := SubAt(t, x);
      DetachChildren(link, sub, sub.ring[0], link[sub.ring[0]].parent, i, x);
      InsideSame(link, Detach(link, sub, x), least);
      var r := DetachChunk(x, sub, link[sub.ring[0]].parent, i);
      ReplaceChunk(x, r, i);
      ghost var t' := UnlinkTree(t, x);
      trees := trees[i := t'];
      assert treebins == old(treebins)[i := if x == root then RootOf(t') else root];
      RootNull(t');
      SomeTree(t, x);
      assert BitsOf(treemap) == old(BitsOf(treemap))[i := t'.Node?];
    }
 
    /** tmalloc_large's walk through the bin of nb, up to the deepest untaken right subtree. */
    method SearchPath(head: Heads, root: Addr, bits: nat, nb: nat, ghost t: Tree, ghost cell: Addr, ghost i: nat,
        ghost lo0: nat, ghost w0: nat)
      returns (v: Addr, rsize: nat, at: Addr, ghost best: nat, ghost spot: Spot)
      requires Walking(head, link, t, root, cell, i, lo0, w0, nb, bits) && 0 < nb < WORD
      requires forall u | u in Sizes(t) :: u < WORD
      ensures PathDone(head, link, t, nb, v, best, i, spot) && spot.at == at && rsize == best - nb
    {
      v, rsize, best := 0, WORD - nb, WORD;
      var rst: Addr := 0;
      var k: nat := bits;
      at := root;
      ghost var s := Path(Spot(t, root, cell, lo0, w0), bits, Spot(Nil, 0, 0, 0, 0), 0, WORD);
      assert OnPath(head, link, t, nb, i, s);
      hide OnPath, PathDone, Walking, Linked, Proper, Sizes, Addrs, ChunkSize;
      while true
        invariant OnPath(head, link, t, nb, i, s)
        invariant s.cur.at == at && s.bits == k && s.rst.at == rst && s.v == v && s.best == best &&
            rsize == best - nb > 0
        decreases s.cur.tree
      {
        CurChunk(head, link, t, nb, i, s);
        var trem := Sub32(ChunkSize(head[at]), nb);
        if trem < rsize {
          TryKeeps(head, link, t, nb, i, s, at, ChunkSize(head[at]));
          v, best := at, ChunkSize(head[at]);
          rsize := trem;
          s := s.(v := v, best := best);
          if rsize == 0 {
            PathEnds(head, link, t, nb, i, s);
            spot := s.cur;
            return;
          }
        }
        PathDown(head, link, t, nb, i, s);
        s := PathNext(link, s);
        var rt := link[at].child1;
        at := GetChild(link[at], k / 0x8000_0000 % 2 == 1);
        if rt != 0 && rt != at {
          rst := rt;
        }
        if at == 0 {
          at := rst;
          PathEnds(head, link, t, nb, i, s);
          spot := s.rst;
          return;
        }
        k := k * 2 % WORD;
      }
    }

    /** The final loop of tmalloc_large and of tmalloc_small: smallest chunk along the leftmost path. */
    method LeftmostPath(head: Heads, at0: Addr, v0: Addr, rsize0: nat, nb: nat, ghost t: Tree, ghost i: nat,
        ghost best0: nat, ghost spot0: Spot)
      returns (v: Addr, rsize: nat, ghost best: nat)
      requires PathDone(head, link, t, nb, v0, best0, i, spot0) && spot0.at == at0 && rsize0 == best0 - nb &&
          0 < nb < WORD
      ensures Candidate(head, Addrs(t), nb, v, best) && rsize == best - nb
      ensures forall z | z in Sizes(t) && nb <= z :: best <= z
    {
      var at := at0;
      ghost var spot := spot0;
      v, rsize, best := v0, rsize0, best0;
      NonNull(link, spot.tree, at, spot.parent, i);
      while at != 0
        invariant PathDone(head, link, t, nb, v, best, i, spot) && spot.at == at && rsize == best - nb
        invariant at == 0 <==> spot.tree.Nil?
        decreases spot.tree
      {
        ghost var sub := spot.tree;
        assert at in sub.ring && sub.size in Sizes(sub);
        TryChunk(sub.size, nb, best);
        var trem := Sub32(ChunkSize(head[at]), nb);
        ghost var v1, best1 := v, best;
        if trem < rsize {
          v, rsize, best := at, trem, sub.size;
        }
        LeftmostDown(head, link, t, nb, v1, best1, i, spot, v, best);
        var c := if link[at].child0 != 0 then link[at].child0 else link[at].child1;
        ghost var next := if sub.left.Node? then sub.left else sub.right;
        ghost var lo', w' :| PathDone(head, link, t, nb, v, best, i, Spot(next, c, at, lo', w'));
        spot := Spot(next, c, at, lo', w');
        at := c;
      }
    }

    /** First stage of tmalloc_large: the bin of nb itself. */
    method SearchOwnBin(head: Heads, nb: nat, idx: nat)
        returns (v: Addr, rsize: nat, t: Addr, ghost best: nat, ghost spot: Spot)
      requires Valid(head) && InBin(idx, nb)
      ensures PathDone(head, link, trees[idx], nb, v, best, idx, spot) && spot.at == t && rsize == best - nb
    {
      v, rsize, best := 0, WORD - nb, WORD;
      t := treebins[idx];
      NonNull(link, trees[idx], t, Cell(binsAt, idx), idx);
      if t != 0 {
        WalkStart(head, link, trees[idx], t, Cell(binsAt, idx), idx, nb);
        v, rsize, t, best, spot := SearchPath(head, t, Shl32(nb, LeftShift(idx)), nb, trees[idx], Cell(binsAt, idx),
            idx, BinLo(idx), BinBits(idx));
      } else {
        spot := Spot(Nil, 0, 0, 0, 0);
      }
    }

    /** Second stage: when the bin of nb has nothing, turn to the next non-empty bin. */
    method SearchNextBin(head: Heads, nb: nat, idx: nat, ghost best: nat, ghost spot0: Spot)
        returns (t: Addr, ghost b: nat, ghost spot: Spot)
      requires Valid(head) && InBin(idx, nb)
      requires PathDone(head, link, trees[idx], nb, 0, best, idx, spot0) && spot0.at == 0
      ensures idx <= b < NTREEBINS && (forall j | idx <= j < b :: NoneAtLeast(trees[j], nb))
      ensures PathDone(head, link, trees[b], nb, 0, best, b, spot) && spot.at == t
      ensures (forall j | b < j < NTREEBINS :: trees[j].Nil?) || (trees[b].Node? && NoneUnder(trees[b], nb))
    {
      b, spot, t := idx, spot0, 0;
      NothingThere(head, link, treebins, BitsOf(treemap), trees, binsAt, least, nb, idx, best, spot0);
      hide Marked, BitsOf, BitsAbove, LeastIndex, PathDone, BinOk, Linked, Proper, Sized;
      NextMarked(treemap, idx);
      var leftbits := BitsAbove(treemap, idx);
      if leftbits != 0 {
        var i := LeastIndex(leftbits);
        t := treebins[i];
        b, spot := i, Spot(trees[i], t, Cell(binsAt, i), BinLo(i), BinBits(i));
        WholeBin(head, link, treebins, BitsOf(treemap), trees, binsAt, least, nb, idx, i, best);
      }
    }

    /** The choice tmalloc_large makes: the smallest chunk of all tree bins that holds nb bytes. */
    method BestFit(head: Heads, nb: nat) returns (v: Addr, rsize: nat)
      requires Valid(head) && MIN_LARGE_SIZE <= nb < WORD
      ensures IsBestFit(head, Binned(), nb, v)
      ensures v != 0 ==> rsize == ChunkSize(head[v]) - nb
    {
      var idx := TreeIndex(nb);
      TreeIndexCorrect(nb);
      ghost var b, best, spot := idx, WORD, Spot(Nil, 0, 0, 0, 0);
      var t: Addr;
      v, rsize, t, best, spot := SearchOwnBin(head, nb, idx);
      if t == 0 && v == 0 {
        t, b, spot := SearchNextBin(head, nb, idx, best, spot);
      }
      ghost var v0, best0 := v, best;
      v, rsize, best := LeftmostPath(head, t, v, rsize, nb, trees[b], b, best, spot);
      if v0 != 0 || t != 0 { FitFound(head, link, trees[b], b, nb, v0, best0, spot, v, best); }
      BestOfBins(head, link, treebins, BitsOf(treemap), trees, binsAt, least, nb, idx, b, v, best);
    }

    /** The choice tmalloc_small makes: the smallest chunk of all tree bins, which are not all empty. */
    method Smallest(head: Heads, nb: nat) returns (v: Addr, rsize: nat)
      requires Valid(head) && 0 < nb <= MIN_LARGE_SIZE && treemap != 0
      ensures v != 0 && IsBestFit(head, Binned(), nb, v) && rsize == ChunkSize(head[v]) - nb
    {
      hide Marked, BitsOf, LeastIndex;
      FirstMarked(treemap);
      var i := LeastIndex(treemap);
      var t := treebins[i];
      ghost var tree := trees[i];
      ghost var spot := Spot(tree, t, Cell(binsAt, i), BinLo(i), BinBits(i));
      assert PathDone(head, link, tree, nb, 0, WORD, i, spot);
      assert tree.size in Sizes(tree) && t in tree.ring;
      LeftmostDown(head, link, tree, nb, 0, WORD, i, spot, t, tree.size);
      v, rsize := t, ChunkSize(head[t]) - nb;
      ghost var v0, best0 := v, tree.size;
      var c := if link[t].child0 != 0 then link[t].child0 else link[t].child1;
      ghost var next := if tree.left.Node? then tree.left else tree.right;
      ghost var lo', w' :| PathDone(head, link, tree, nb, v, best0, i, Spot(next, c, t, lo', w'));
      ghost var best;
      v, rsize, best := LeftmostPath(head, c, v, rsize, nb, tree, i, best0, Spot(next, c, t, lo', w'));
      RootNull(tree);
      FitFound(head, link, tree, i, nb, v0, best0, Spot(next, c, t, lo', w'), v, best);
      SmallestOfBins(head, link, treebins, BitsOf(treemap), trees, binsAt, least, nb, i, v, best);
    }
  }
}
