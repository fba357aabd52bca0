/**
  One tree bin of the allocator: a bitwise trie of free chunks keyed on size, in which
  all chunks of one size hang on a circular list from a single trie node.  A tree is
  described here as a value; predicates say when the link words in memory represent it.
 */
module DlTrie {
  import opened Arith
  import opened DlIndex

  /** Byte address; 0 is the null pointer. */
  type Addr = nat

  /** The link words of a free large chunk (struct malloc_tree_chunk without its tags). */
  datatype TLinks = TLinks(fd: Addr, bk: Addr, child0: Addr, child1: Addr, parent: Addr, index: nat)

  type Links = map<Addr, TLinks>
  type Heads = map<Addr, nat>

  /** chunksize: the head word without its two in-use bits. */
  function ChunkSize(head: nat): nat { head - head % 4 }

  /** ring[0] carries the parent and child links; left holds the smaller half of the sizes. */
  datatype Tree = Nil | Node(ring: seq<Addr>, size: nat, left: Tree, right: Tree)

  ghost function RingSet(ring: seq<Addr>): set<Addr> { set a | a in ring }

  ghost function Addrs(t: Tree): set<Addr> {
    match t
    case Nil => {}
    case Node(ring, _, l, r) => RingSet(ring) + Addrs(l) + Addrs(r)
  }

  ghost function Sizes(t: Tree): set<nat> {
    match t
    case Nil => {}
    case Node(_, size, l, r) => {size} + Sizes(l) + Sizes(r)
  }

  ghost predicate Distinct(s: seq<Addr>) {
    forall i, j | 0 <= i < j < |s| :: s[i] != s[j]
  }

  /** ok_address: not below the lowest address the heap was given. */
  predicate OkAddress(least: Addr, a: Addr) { least <= a }

  /** Every chunk appears once and none is null. */
  ghost predicate Proper(t: Tree) {
    match t
    case Nil => true
    case Node(ring, _, l, r) =>
      && ring != [] && Distinct(ring) && 0 !in ring
      && RingSet(ring) !! Addrs(l) && RingSet(ring) !! Addrs(r) && Addrs(l) !! Addrs(r)
      && Proper(l) && Proper(r)
  }

  /** The chunks on one ring all have the node's size. */
  ghost predicate Sized(head: Heads, t: Tree) {
    match t
    case Nil => true
    case Node(ring, size, l, r) =>
      && (forall a | a in ring :: a in head && ChunkSize(head[a]) == size)
      && Sized(head, l) && Sized(head, r)
  }

  /** The trie invariant: a node's sizes lie in [lo, lo + 2^k), split in halves below it. */
  ghost predicate InTrie(t: Tree, lo: nat, k: nat) {
    match t
    case Nil => true
    case Node(_, size, l, r) =>
      && lo <= size < lo + Pow2(k)
      && (k == 0 ==> l.Nil? && r.Nil?)
      && (k > 0 ==> InTrie(l, lo, k - 1) && InTrie(r, lo + Pow2(k - 1), k - 1))
  }

  /** j follows i on a circular list of n elements. */
  predicate Follows(i: int, j: int, n: nat) {
    0 <= i < n && 0 <= j < n && j == if i + 1 == n then 0 else i + 1
  }

  ghost predicate RingLinked(m: Links, ring: seq<Addr>) {
    && (forall a | a in ring :: a in m)
    && forall i, j | 0 <= i < |ring| && 0 <= j < |ring| && Follows(i, j, |ring|) ::
         m[ring[i]].fd == ring[j] && m[ring[j]].bk == ring[i]
  }

  ghost predicate RingOk(m: Links, ring: seq<Addr>, idx: nat) {
    && RingLinked(m, ring)
    && (forall a | a in ring :: m[a].index == idx)
    && forall i | 0 < i < |ring| ::
         m[ring[i]].parent == 0 && m[ring[i]].child0 == 0 && m[ring[i]].child1 == 0
  }

  /** The link words represent t, hanging from `parent` at `root`, in bin idx. */
  ghost predicate Linked(m: Links, t: Tree, root: Addr, parent: Addr, idx: nat) {
    match t
    case Nil => root == 0
    case Node(ring, _, l, r) =>
      && ring != [] && root == ring[0]
      && RingOk(m, ring, idx)
      && m[root].parent == parent
      && Linked(m, l, m[root].child0, root, idx)
      && Linked(m, r, m[root].child1, root, idx)
  }

  ghost predicate SameOn(m: Links, m': Links, s: set<Addr>) {
    forall a | a in s && a in m :: a in m' && m'[a] == m[a]
  }

  ghost predicate SameExcept(m: Links, m': Links, s: set<Addr>) {
    forall a | a in m && a !in s :: a in m' && m'[a] == m[a]
  }

  lemma {:induction false} LinkedFrame(m: Links, m': Links, t: Tree, root: Addr, parent: Addr, idx: nat)
    requires Linked(m, t, root, parent, idx) && SameOn(m, m', Addrs(t))
    ensures Linked(m', t, root, parent, idx)
  {
    match t
    case Nil =>
    case Node(ring, _, l, r) =>
      assert forall a | a in ring :: a in Addrs(t);
      LinkedFrame(m, m', l, m[root].child0, root, idx);
      LinkedFrame(m, m', r, m[root].child1, root, idx);
  }

  lemma {:induction false} LinkedIn(m: Links, t: Tree, root: Addr, parent: Addr, idx: nat)
    requires Linked(m, t, root, parent, idx)
    ensures forall a | a in Addrs(t) :: a in m && m[a].index == idx
    ensures t.Node? ==> root in Addrs(t)
  {
    match t
    case Nil =>
    case Node(ring, _, l, r) =>
      LinkedIn(m, l, m[root].child0, root, idx);
      LinkedIn(m, r, m[root].child1, root, idx);
  }

  lemma {:induction false} SizesInRange(t: Tree, lo: nat, k: nat)
    requires InTrie(t, lo, k)
    ensures forall s | s in Sizes(t) :: lo <= s < lo + Pow2(k)
  {
    match t
    case Nil =>
    case Node(_, _, l, r) =>
      if k > 0 {
        SizesInRange(l, lo, k - 1);
        SizesInRange(r, lo + Pow2(k - 1), k - 1);
      }
  }

  /* ---- Insertion ---- */

  /** s belongs under t, which divides [lo, lo + 2^k). */
  ghost predicate Fits(t: Tree, lo: nat, k: nat, s: nat) {
    Proper(t) && InTrie(t, lo, k) && lo <= s < lo + Pow2(k)
  }

  /** A chunk of size s joins the ring of its size, or becomes a new leaf. */
  ghost function InsertTree(t: Tree, lo: nat, k: nat, x: Addr, s: nat): Tree
    requires Fits(t, lo, k, s)
    decreases t
  {
    match t
    case Nil => Node([x], s, Nil, Nil)
    case Node(ring, size, l, r) =>
      if size == s then Node([ring[0], x] + ring[1..], size, l, r)
      else if s < lo + Pow2(k - 1) then Node(ring, size, InsertTree(l, lo, k - 1, x, s), r)
      else Node(ring, size, l, InsertTree(r, lo + Pow2(k - 1), k - 1, x, s))
  }

  ghost function Subtree(t: Tree, right: bool): Tree
    requires t.Node?
  {
    if right then t.right else t.left
  }

  ghost function Graft(t: Tree, right: bool, sub: Tree): Tree
    requires t.Node?
  {
    if right then t.(right := sub) else t.(left := sub)
  }

  /** Where the search for a place to insert stops: an empty child pointer, or an equal size. */
  datatype Slot = Hang(at: Addr, right: bool) | Join(at: Addr)

  ghost function FindSlot(t: Tree, lo: nat, k: nat, s: nat): Slot
    requires t.Node? && Fits(t, lo, k, s)
    decreases t
  {
    if t.size == s then Join(t.ring[0])
    else if s < lo + Pow2(k - 1) then
      if t.left.Nil? then Hang(t.ring[0], false) else FindSlot(t.left, lo, k - 1, s)
    else
      if t.right.Nil? then Hang(t.ring[0], true) else FindSlot(t.right, lo + Pow2(k - 1), k - 1, s)
  }

  /** One step of the descent, for either side. */
  lemma InsertStep(t: Tree, lo: nat, k: nat, x: Addr, s: nat)
    requires t.Node? && Fits(t, lo, k, s) && t.size != s
    ensures k > 0
    ensures var right := lo + Pow2(k - 1) <= s;
            var lo' := if right then lo + Pow2(k - 1) else lo;
            var sub := Subtree(t, right);
            && Fits(sub, lo', k - 1, s)
            && InsertTree(t, lo, k, x, s) == Graft(t, right, InsertTree(sub, lo', k - 1, x, s))
            && FindSlot(t, lo, k, s) ==
                 if sub.Nil? then Hang(t.ring[0], right) else FindSlot(sub, lo', k - 1, s)
  {
  }

  lemma JoinKeeps(ring: seq<Addr>, x: Addr)
    requires ring != [] && Distinct(ring) && x !in ring && x != 0 && 0 !in ring
    ensures var ring' := [ring[0], x] + ring[1..];
            RingSet(ring') == RingSet(ring) + {x} && Distinct(ring') && 0 !in ring'
  {
    var ring' := [ring[0], x] + ring[1..];
    assert ring == [ring[0]] + ring[1..];
    assert forall i | 2 <= i < |ring'| :: ring'[i] == ring[i - 1];
  }

  lemma GraftKeeps(t: Tree, right: bool, sub: Tree, x: Addr)
    requires t.Node? && Proper(t) && x !in Addrs(t)
    requires Proper(sub) && Addrs(sub) == Addrs(Subtree(t, right)) + {x}
    ensures Proper(Graft(t, right, sub)) && Addrs(Graft(t, right, sub)) == Addrs(t) + {x}
  {
  }

  /** Insertion adds exactly x. */
  lemma {:induction false} InsertKeeps(t: Tree, lo: nat, k: nat, x: Addr, s: nat)
    requires Fits(t, lo, k, s) && x != 0 && x !in Addrs(t)
    ensures Addrs(InsertTree(t, lo, k, x, s)) == Addrs(t) + {x}
    ensures Proper(InsertTree(t, lo, k, x, s))
    decreases t
  {
    if t.Nil? {
      assert RingSet([x]) == {x};
    } else if t.size == s {
      JoinKeeps(t.ring, x);
    } else {
      InsertStep(t, lo, k, x, s);
      var right := lo + Pow2(k - 1) <= s;
      var lo' := if right then lo + Pow2(k - 1) else lo;
      InsertKeeps(Subtree(t, right), lo', k - 1, x, s);
      GraftKeeps(t, right, InsertTree(Subtree(t, right), lo', k - 1, x, s), x);
    }
  }

  /** Insertion adds exactly the size s and keeps the trie order. */
  lemma {:induction false} InsertInTrie(t: Tree, lo: nat, k: nat, x: Addr, s: nat)
    requires Fits(t, lo, k, s)
    ensures InTrie(InsertTree(t, lo, k, x, s), lo, k)
    ensures Sizes(InsertTree(t, lo, k, x, s)) == Sizes(t) + {s}
    decreases t
  {
    match t
    case Nil =>
    case Node(ring, size, l, r) =>
      if size == s {
      } else if s < lo + Pow2(k - 1) {
        InsertInTrie(l, lo, k - 1, x, s);
      } else {
        InsertInTrie(r, lo + Pow2(k - 1), k - 1, x, s);
      }
  }

  lemma {:induction false} InsertSized(head: Heads, t: Tree, lo: nat, k: nat, x: Addr, s: nat)
    requires Fits(t, lo, k, s) && Sized(head, t) && x in head && ChunkSize(head[x]) == s
    ensures Sized(head, InsertTree(t, lo, k, x, s))
    decreases t
  {
    match t
    case Nil =>
    case Node(ring, size, l, r) =>
      if size == s {
      } else if s < lo + Pow2(k - 1) {
        InsertSized(head, l, lo, k - 1, x, s);
      } else {
        InsertSized(head, r, lo + Pow2(k - 1), k - 1, x, s);
      }
  }

  function SetChild(c: TLinks, right: bool, a: Addr): TLinks {
    if right then c.(child1 := a) else c.(child0 := a)
  }

  function GetChild(c: TLinks, right: bool): Addr {
    if right then c.child1 else c.child0
  }

  /** The link writes of insert_large_chunk once its search has stopped. */
  function InsertLinks(m: Links, slot: Slot, x: Addr, idx: nat): Links
    requires slot.at in m
    requires slot.Join? ==> m[slot.at].fd in m
  {
    match slot
    case Hang(at, right) => m[at := SetChild(m[at], right, x)][x := TLinks(x, x, 0, 0, at, idx)]
    case Join(at) =>
      var f := m[at].fd;
      var m1 := m[f := m[f].(bk := x)];
      m1[at := m1[at].(fd := x)][x := TLinks(f, at, 0, 0, 0, idx)]
  }

  /** The slot and the ring successor it rewrites lie inside the tree. */
  lemma {:induction false} SlotInside(m: Links, t: Tree, root: Addr, parent: Addr, idx: nat, lo: nat, k: nat, s: nat)
    requires t.Node? && Fits(t, lo, k, s) && Linked(m, t, root, parent, idx)
    ensures var slot := FindSlot(t, lo, k, s);
            && slot.at in Addrs(t) && slot.at in m
            && (slot.Join? ==> m[slot.at].fd in Addrs(t) && m[slot.at].fd in m)
    decreases t
  {
    if t.size == s {
      assert Follows(0, if |t.ring| == 1 then 0 else 1, |t.ring|);
    } else if s < lo + Pow2(k - 1) {
      if t.left.Node? { SlotInside(m, t.left, m[root].child0, root, idx, lo, k - 1, s); }
    } else {
      if t.right.Node? { SlotInside(m, t.right, m[root].child1, root, idx, lo + Pow2(k - 1), k - 1, s); }
    }
  }

  /** Putting x right after the head of a circular list. */
  lemma JoinRingLinked(m: Links, ring: seq<Addr>, x: Addr, idx: nat)
    requires ring != [] && Distinct(ring) && x !in ring && RingLinked(m, ring)
    ensures m[ring[0]].fd in ring
    ensures RingLinked(InsertLinks(m, Join(ring[0]), x, idx), [ring[0], x] + ring[1..])
  {
    var n := |ring|;
    var ring' := [ring[0], x] + ring[1..];
    assert Follows(0, if n == 1 then 0 else 1, n);
    var m' := InsertLinks(m, Join(ring[0]), x, idx);
    forall i, j | 0 <= i < |ring'| && 0 <= j < |ring'| && Follows(i, j, |ring'|)
      ensures m'[ring'[i]].fd == ring'[j] && m'[ring'[j]].bk == ring'[i]
    {
      if i >= 2 {
        assert Follows(i - 1, if j == 0 then 0 else j - 1, n);
        assert ring'[i] == ring[i - 1];
      }
    }
  }

  lemma JoinRing(m: Links, ring: seq<Addr>, x: Addr, idx: nat)
    requires ring != [] && Distinct(ring) && x !in ring && RingOk(m, ring, idx)
    ensures m[ring[0]].fd in ring
    ensures var m' := InsertLinks(m, Join(ring[0]), x, idx);
            && RingOk(m', [ring[0], x] + ring[1..], idx)
            && m'[ring[0]].(fd := 0, bk := 0) == m[ring[0]].(fd := 0, bk := 0)
  {
    JoinRingLinked(m, ring, x, idx);
  }

  /** A change confined to one subtree and the child pointer to it replaces just that subtree. */
  lemma GraftLinked(m: Links, m': Links, t: Tree, root: Addr, parent: Addr, idx: nat, right: bool, sub: Tree)
    requires t.Node? && Proper(t) && Linked(m, t, root, parent, idx)
    requires root in m' && SetChild(m'[root], right, 0) == SetChild(m[root], right, 0)
    requires forall a | a in t.ring && a != root :: a in m' && m'[a] == m[a]
    requires SameOn(m, m', Addrs(Subtree(t, !right)))
    requires Linked(m', sub, GetChild(m'[root], right), root, idx)
    ensures Linked(m', Graft(t, right, sub), root, parent, idx)
  {
    assert forall i | 0 < i < |t.ring| :: t.ring[i] != root;
    assert RingOk(m', t.ring, idx);
    LinkedFrame(m, m', Subtree(t, !right), GetChild(m[root], !right), root, idx);
  }

  lemma JoinLinked(m: Links, t: Tree, root: Addr, parent: Addr, idx: nat, x: Addr)
    requires t.Node? && Proper(t) && Linked(m, t, root, parent, idx) && x !in Addrs(t)
    requires m[root].fd in m
    ensures Linked(InsertLinks(m, Join(root), x, idx), t.(ring := [root, x] + t.ring[1..]), root, parent, idx)
  {
    var m' := InsertLinks(m, Join(root), x, idx);
    JoinRing(m, t.ring, x, idx);
    assert SameOn(m, m', Addrs(t.left)) && SameOn(m, m', Addrs(t.right));
    LinkedFrame(m, m', t.left, m[root].child0, root, idx);
    LinkedFrame(m, m', t.right, m[root].child1, root, idx);
  }

  lemma HangLinked(m: Links, t: Tree, root: Addr, parent: Addr, idx: nat, right: bool, x: Addr, s: nat)
    requires t.Node? && Proper(t) && Linked(m, t, root, parent, idx) && x !in Addrs(t)
    requires Subtree(t, right).Nil?
    ensures Linked(InsertLinks(m, Hang(root, right), x, idx), Graft(t, right, Node([x], s, Nil, Nil)), root, parent,
        idx)
  {
    var m' := InsertLinks(m, Hang(root, right), x, idx);
    assert RingLinked(m', [x]);
    assert SameOn(m, m', Addrs(Subtree(t, !right)));
    GraftLinked(m, m', t, root, parent, idx, right, Node([x], s, Nil, Nil));
  }

  lemma InsertFootprint(m: Links, t: Tree, root: Addr, parent: Addr, idx: nat, lo: nat, k: nat, x: Addr, s: nat)
    requires t.Node? && Fits(t, lo, k, s) && Linked(m, t, root, parent, idx)
    ensures var slot := FindSlot(t, lo, k, s);
            && slot.at in m && (slot.Join? ==> m[slot.at].fd in m)
            && SameExcept(m, InsertLinks(m, slot, x, idx), Addrs(t) + {x})
  {
    SlotInside(m, t, root, parent, idx, lo, k, s);
  }

  lemma InsertDeep(m: Links, m': Links, t: Tree, root: Addr, parent: Addr, idx: nat, right: bool, sub': Tree, x: Addr)
    requires t.Node? && Proper(t) && Linked(m, t, root, parent, idx) && x !in Addrs(t)
    requires SameExcept(m, m', Addrs(Subtree(t, right)) + {x})
    requires Linked(m', sub', GetChild(m[root], right), root, idx)
    ensures Linked(m', Graft(t, right, sub'), root, parent, idx)
  {
    assert forall a | a in t.ring :: a in RingSet(t.ring) && a in Addrs(t);
    GraftLinked(m, m', t, root, parent, idx, right, sub');
  }

  /** The writes at the slot turn the representation of t into that of the larger tree. */
  lemma {:induction false} InsertLinked(m: Links, t: Tree, root: Addr, parent: Addr, idx: nat, lo: nat, k: nat, x: Addr,
      s: nat)
    requires t.Node? && Fits(t, lo, k, s) && Linked(m, t, root, parent, idx)
    requires x != 0 && x !in Addrs(t)
    ensures FindSlot(t, lo, k, s).at in m
    ensures FindSlot(t, lo, k, s).Join? ==> m[FindSlot(t, lo, k, s).at].fd in m
    ensures Linked(InsertLinks(m, FindSlot(t, lo, k, s), x, idx), InsertTree(t, lo, k, x, s), root, parent, idx)
    decreases t, 0
  {
    if t.size == s {
      SlotInside(m, t, root, parent, idx, lo, k, s);
      JoinLinked(m, t, root, parent, idx, x);
    } else {
      InsertStep(t, lo, k, x, s);
      var right := lo + Pow2(k - 1) <= s;
      var lo' := if right then lo + Pow2(k - 1) else lo;
      InsertBelow(m, t, root, parent, idx, right, lo', k - 1, x, s);
    }
  }

  lemma {:induction false} InsertBelow(m: Links, t: Tree, root: Addr, parent: Addr, idx: nat, right: bool, lo: nat,
      k: nat, x: Addr, s: nat)
    requires t.Node? && Proper(t) && Linked(m, t, root, parent, idx)
    requires x != 0 && x !in Addrs(t)
    requires Fits(Subtree(t, right), lo, k, s)
    ensures var sub := Subtree(t, right);
            var slot := if sub.Nil? then Hang(root, right) else FindSlot(sub, lo, k, s);
            && slot.at in m && (slot.Join? ==> m[slot.at].fd in m)
            && Linked(InsertLinks(m, slot, x, idx), Graft(t, right, InsertTree(sub, lo, k, x, s)), root, parent, idx)
    decreases Subtree(t, right), 1
  {
    var sub := Subtree(t, right);
    if sub.Nil? {
      HangLinked(m, t, root, parent, idx, right, x, s);
    } else {
      var c := GetChild(m[root], right);
      InsertFootprint(m, sub, c, root, idx, lo, k, x, s);
      InsertLinked(m, sub, c, root, idx, lo, k, x, s);
      InsertDeep(m, InsertLinks(m, FindSlot(sub, lo, k, s), x, idx), t, root, parent, idx, right,
          InsertTree(sub, lo, k, x, s), x);
    }
  }

  /* ---- Removal ---- */

  /** The rightmost leaf: follow child[1] when there is one, else child[0]. */
  ghost function Leaf(t: Tree): (leaf: Tree)
    requires t.Node?
    ensures leaf.Node?
  {
    if t.right.Node? then Leaf(t.right) else if t.left.Node? then Leaf(t.left) else t
  }

  ghost function PopLeaf(t: Tree): Tree
    requires t.Node?
  {
    if t.right.Node? then t.(right := PopLeaf(t.right))
    else if t.left.Node? then t.(left := PopLeaf(t.left))
    else Nil
  }

  ghost function IndexOf(ring: seq<Addr>, x: Addr): (i: nat)
    requires x in ring
    ensures i < |ring| && ring[i] == x
  {
    var i :| 0 <= i < |ring| && ring[i] == x;
    i
  }

  /** The ring after its i-th chunk leaves; when the head leaves, its bk neighbour takes over. */
  ghost function DropAt(ring: seq<Addr>, i: nat): seq<Addr>
    requires i < |ring| && |ring| > 1
  {
    if i == 0 then [ring[|ring| - 1]] + ring[1..|ring| - 1] else ring[..i] + ring[i + 1..]
  }

  /** unlink_large_chunk on the tree value. */
  ghost function UnlinkTree(t: Tree, x: Addr): Tree
  {
    match t
    case Nil => Nil
    case Node(ring, size, l, r) =>
      if x in ring then
        if |ring| > 1 then t.(ring := DropAt(ring, IndexOf(ring, x)))
        else if l.Nil? && r.Nil? then Nil
        else PopLeaf(t).(ring := Leaf(t).ring, size := Leaf(t).size)
      else if x in Addrs(l) then t.(left := UnlinkTree(l, x))
      else t.(right := UnlinkTree(r, x))
  }

  lemma {:induction false} PopLeafKeeps(t: Tree)
    requires t.Node? && Proper(t)
    ensures Leaf(t).Node? && Proper(Leaf(t)) && Leaf(t).left.Nil? && Leaf(t).right.Nil?
    ensures Addrs(PopLeaf(t)) !! RingSet(Leaf(t).ring)
    ensures Addrs(t) == Addrs(PopLeaf(t)) + RingSet(Leaf(t).ring)
    ensures Proper(PopLeaf(t))
    ensures PopLeaf(t).Nil? <==> t.left.Nil? && t.right.Nil?
  {
    if t.right.Node? {
      PopLeafKeeps(t.right);
    } else if t.left.Node? {
      PopLeafKeeps(t.left);
    }
  }

  lemma {:induction false} PopLeafInTrie(t: Tree, lo: nat, k: nat)
    requires t.Node? && InTrie(t, lo, k)
    ensures InTrie(PopLeaf(t), lo, k) && lo <= Leaf(t).size < lo + Pow2(k)
    ensures Leaf(t).size in Sizes(t) && Sizes(PopLeaf(t)) <= Sizes(t)
  {
    if t.right.Node? {
      PopLeafInTrie(t.right, lo + Pow2(k - 1), k - 1);
    } else if t.left.Node? {
      PopLeafInTrie(t.left, lo, k - 1);
    }
  }

  lemma {:induction false} PopLeafSized(head: Heads, t: Tree)
    requires t.Node? && Sized(head, t)
    ensures Sized(head, PopLeaf(t)) && Sized(head, Leaf(t))
  {
    if t.right.Node? {
      PopLeafSized(head, t.right);
    } else if t.left.Node? {
      PopLeafSized(head, t.left);
    }
  }

  /** Position in the old ring of position j in the ring left by DropAt. */
  function Undrop(n: nat, i: nat, j: nat): nat
    requires n > 1
  {
    if i == 0 then (if j == 0 then n - 1 else j) else if j < i then j else j + 1
  }

  lemma DropAtIndex(ring: seq<Addr>, i: nat, j: nat)
    requires i < |ring| && |ring| > 1 && j < |ring| - 1
    ensures |DropAt(ring, i)| == |ring| - 1
    ensures Undrop(|ring|, i, j) < |ring| && Undrop(|ring|, i, j) != i
    ensures DropAt(ring, i)[j] == ring[Undrop(|ring|, i, j)]
  {
  }

  lemma DropAtKeeps(ring: seq<Addr>, i: nat)
    requires Distinct(ring) && i < |ring| && |ring| > 1
    ensures DropAt(ring, i) != [] && Distinct(DropAt(ring, i))
    ensures RingSet(DropAt(ring, i)) == RingSet(ring) - {ring[i]}
  {
    var n := |ring|;
    var ring' := DropAt(ring, i);
    forall j | 0 <= j < n - 1 ensures ring'[j] == ring[Undrop(n, i, j)] && ring'[j] in RingSet(ring) - {ring[i]} {
      DropAtIndex(ring, i, j);
    }
    forall a | a in RingSet(ring) - {ring[i]} ensures a in ring' {
      var j0 := IndexOf(ring, a);
      var j := if i == 0 then (if j0 == n - 1 then 0 else j0) else if j0 < i then j0 else j0 - 1;
      assert ring'[j] == a;
    }
  }

  /** Removal takes out exactly x. */
  lemma {:induction false} UnlinkKeeps(t: Tree, x: Addr)
    requires Proper(t) && x in Addrs(t)
    ensures Addrs(UnlinkTree(t, x)) == Addrs(t) - {x}
    ensures Proper(UnlinkTree(t, x))
  {
    match t
    case Nil =>
    case Node(ring, size, l, r) =>
      if x in ring {
        if |ring| > 1 {
          DropAtKeeps(ring, IndexOf(ring, x));
        } else {
          assert RingSet(ring) == {x};
          PopLeafKeeps(t);
        }
      } else if x in Addrs(l) {
        UnlinkKeeps(l, x);
      } else {
        UnlinkKeeps(r, x);
      }
  }

  /** Removal keeps the trie order and adds no size. */
  lemma {:induction false} UnlinkInTrie(t: Tree, lo: nat, k: nat, x: Addr)
    requires InTrie(t, lo, k)
    ensures InTrie(UnlinkTree(t, x), lo, k)
    ensures Sizes(UnlinkTree(t, x)) <= Sizes(t)
  {
    match t
    case Nil =>
    case Node(ring, size, l, r) =>
      if x in ring {
        PopLeafInTrie(t, lo, k);
      } else if k > 0 {
        UnlinkInTrie(l, lo, k - 1, x);
        UnlinkInTrie(r, lo + Pow2(k - 1), k - 1, x);
      }
  }

  lemma {:induction false} UnlinkSized(head: Heads, t: Tree, x: Addr)
    requires Proper(t) && Sized(head, t)
    ensures Sized(head, UnlinkTree(t, x))
  {
    match t
    case Nil =>
    case Node(ring, size, l, r) =>
      if x in ring {
        PopLeafSized(head, t);
        if |ring| > 1 {
          DropAtKeeps(ring, IndexOf(ring, x));
          assert forall a | a in DropAt(ring, IndexOf(ring, x)) :: a in RingSet(DropAt(ring, IndexOf(ring, x)));
        }
      } else {
        UnlinkSized(head, l, x);
        UnlinkSized(head, r, x);
      }
  }

  /* ---- The link writes of a removal ---- */

  ghost function RootOf(t: Tree): Addr {
    if t.Node? && t.ring != [] then t.ring[0] else 0
  }

  ghost predicate IsLeaf(t: Tree) { t.Node? && t.left.Nil? && t.right.Nil? }

  /** The child pointer (node and side) that leads to the rightmost leaf. */
  ghost function LeafSlot(t: Tree): (Addr, bool)
    requires t.Node? && Proper(t) && !IsLeaf(t)
  {
    var sub := Subtree(t, t.right.Node?);
    if IsLeaf(sub) then (t.ring[0], t.right.Node?) else LeafSlot(sub)
  }

  function CutChild(m: Links, at: Addr, right: bool): Links
    requires at in m
  {
    m[at := SetChild(m[at], right, 0)]
  }

  /** F->bk = R; R->fd = F. */
  function RingOutLinks(m: Links, x: Addr): Links
    requires x in m && m[x].fd in m && m[x].bk in m
  {
    var f, r := m[x].fd, m[x].bk;
    var m1 := m[f := m[f].(bk := r)];
    m1[r := m1[r].(fd := f)]
  }

  function SetParent(m: Links, a: Addr, p: Addr): Links
    requires a in m
  {
    m[a := m[a].(parent := p)]
  }

  /** R takes over one child of x: R->child[i] = C; C->parent = R. */
  function AdoptSide(m: Links, x: Addr, r: Addr, right: bool): Links
    requires x in m && r in m
  {
    var c := GetChild(m[x], right);
    if c == 0 || c !in m then m else SetParent(m[r := SetChild(m[r], right, c)], c, r)
  }

  /** R takes over x's place: parent xp and x's children. */
  function AdoptLinks(m: Links, x: Addr, r: Addr, xp: Addr): Links
    requires x in m && r in m
  {
    AdoptSide(AdoptSide(SetParent(m, r, xp), x, r, false), x, r, true)
  }

  lemma RingEnds(m: Links, ring: seq<Addr>, i: nat)
    requires Distinct(ring) && i < |ring| && RingLinked(m, ring)
    ensures m[ring[i]].fd in ring && m[ring[i]].bk in ring
    ensures m[ring[i]].bk == ring[i] <==> |ring| == 1
    ensures i == 0 ==> m[ring[i]].bk == ring[|ring| - 1]
  {
    var n := |ring|;
    assert Follows(if i == 0 then n - 1 else i - 1, i, n) && Follows(i, if i + 1 == n then 0 else i + 1, n);
  }

  lemma RingOutLinked(m: Links, ring: seq<Addr>, i: nat)
    requires Distinct(ring) && i < |ring| && |ring| > 1 && RingLinked(m, ring)
    requires m[ring[i]].fd in m && m[ring[i]].bk in m
    ensures RingLinked(RingOutLinks(m, ring[i]), DropAt(ring, i))
  {
    var n := |ring|;
    var m' := RingOutLinks(m, ring[i]);
    var ring' := DropAt(ring, i);
    forall j | 0 <= j < |ring'| ensures ring'[j] == ring[Undrop(n, i, j)] && ring'[j] in m' {
      DropAtIndex(ring, i, j);
    }
    forall j, k | 0 <= j < |ring'| && 0 <= k < |ring'| && Follows(j, k, |ring'|)
      ensures m'[ring'[j]].fd == ring'[k] && m'[ring'[k]].bk == ring'[j]
    {
      RingOutPair(m, ring, i, Undrop(n, i, j), Undrop(n, i, k));
    }
  }

  lemma RingOut(m: Links, ring: seq<Addr>, i: nat, idx: nat)
    requires Distinct(ring) && i < |ring| && |ring| > 1 && RingOk(m, ring, idx)
    ensures m[ring[i]].fd in ring && m[ring[i]].bk in ring
    ensures var m' := RingOutLinks(m, ring[i]);
            && RingOk(m', DropAt(ring, i), idx)
            && m'.Keys == m.Keys
            && (forall a | a in m :: m'[a] == m[a].(fd := m'[a].fd, bk := m'[a].bk))
            && (forall a | a in m && a !in ring :: m'[a] == m[a])
  {
    RingEnds(m, ring, i);
    RingOutLinked(m, ring, i);
    var ring' := DropAt(ring, i);
    forall j | 0 <= j < |ring'|
      ensures ring'[j] in ring && ring'[j] == ring[Undrop(|ring|, i, j)] && (j > 0 ==> Undrop(|ring|, i, j) > 0)
    {
      DropAtIndex(ring, i, j);
    }
  }

  /** Two neighbours of the shorter ring: old neighbours, or the two ends of the gap. */
  lemma RingOutPair(m: Links, ring: seq<Addr>, i: nat, j: nat, k: nat)
    requires Distinct(ring) && i < |ring| && |ring| > 1 && RingLinked(m, ring)
    requires i != j < |ring| && i != k < |ring|
    requires Follows(j, k, |ring|) || (Follows(j, i, |ring|) && Follows(i, k, |ring|))
    requires m[ring[i]].fd in m && m[ring[i]].bk in m
    ensures RingOutLinks(m, ring[i])[ring[j]].fd == ring[k]
    ensures RingOutLinks(m, ring[i])[ring[k]].bk == ring[j]
  {
    var n := |ring|;
    var prev, next := if i == 0 then n - 1 else i - 1, if i + 1 == n then 0 else i + 1;
    assert Follows(prev, i, n) && Follows(i, next, n);
  }

  /** Changing only the root's parent word re-hangs a tree. */
  lemma Reparent(m: Links, t: Tree, root: Addr, parent: Addr, idx: nat, p: Addr)
    requires t.Node? && Proper(t) && Linked(m, t, root, parent, idx)
    ensures root in m && Linked(SetParent(m, root, p), t, root, p, idx)
  {
    var m' := SetParent(m, root, p);
    assert forall i | 0 < i < |t.ring| :: t.ring[i] != root;
    assert RingOk(m', t.ring, idx);
    assert root in RingSet(t.ring);
    LinkedFrame(m, m', t.left, m[root].child0, root, idx);
    LinkedFrame(m, m', t.right, m[root].child1, root, idx);
  }

  lemma {:induction false} PopLeafLinked(m: Links, t: Tree, root: Addr, parent: Addr, idx: nat)
    requires t.Node? && Proper(t) && !IsLeaf(t) && Linked(m, t, root, parent, idx)
    ensures LeafSlot(t).0 in m && LeafSlot(t).0 in Addrs(PopLeaf(t))
    ensures Linked(CutChild(m, LeafSlot(t).0, LeafSlot(t).1), PopLeaf(t), root, parent, idx)
  {
    var right := t.right.Node?;
    var sub := Subtree(t, right);
    var c := GetChild(m[root], right);
    if IsLeaf(sub) {
      var m' := CutChild(m, root, right);
      assert root in RingSet(t.ring);
      GraftLinked(m, m', t, root, parent, idx, right, Nil);
    } else {
      PopLeafLinked(m, sub, c, root, idx);
      PopLeafKeeps(sub);
      var m' := CutChild(m, LeafSlot(sub).0, LeafSlot(sub).1);
      assert forall a | a in t.ring :: a in RingSet(t.ring);
      GraftLinked(m, m', t, root, parent, idx, right, PopLeaf(sub));
    }
  }

  /** A ring whose head has no children: ready to take a node's place. */
  ghost predicate FreeRing(m: Links, ring: seq<Addr>, idx: nat) {
    && ring != [] && Distinct(ring) && RingOk(m, ring, idx)
    && m[ring[0]].child0 == 0 && m[ring[0]].child1 == 0
  }

  lemma {:induction false} LeafFree(m: Links, t: Tree, root: Addr, parent: Addr, idx: nat)
    requires t.Node? && Proper(t) && Linked(m, t, root, parent, idx)
    ensures FreeRing(m, Leaf(t).ring, idx)
  {
    var right := t.right.Node?;
    if !IsLeaf(t) {
      LeafFree(m, Subtree(t, right), GetChild(m[root], right), root, idx);
    }
  }

  /** The two subtrees of the node that x leaves, and the ring that takes its place. */
  ghost predicate Apart(x: Addr, ring: seq<Addr>, l: Tree, r: Tree) {
    && Proper(l) && Proper(r) && Addrs(l) !! Addrs(r)
    && RingSet(ring) !! Addrs(l) && RingSet(ring) !! Addrs(r)
    && x !in ring && x !in Addrs(l) && x !in Addrs(r)
  }

  lemma AdoptSideOk(m: Links, x: Addr, ring: seq<Addr>, sub: Tree, other: Tree, c': Addr, p': Addr, idx: nat,
      right: bool)
    requires x in m && ring != [] && Distinct(ring) && RingOk(m, ring, idx)
    requires GetChild(m[ring[0]], right) == 0
    requires Apart(x, ring, sub, other)
    requires Linked(m, sub, GetChild(m[x], right), x, idx) && Linked(m, other, c', p', idx)
    ensures var h := ring[0];
            var m' := AdoptSide(m, x, h, right);
            && RingOk(m', ring, idx)
            && Linked(m', sub, GetChild(m'[h], right), h, idx) && Linked(m', other, c', p', idx)
            && m'[h] == SetChild(m[h], right, GetChild(m[x], right)) && m'[x] == m[x]
            && m'.Keys == m.Keys && SameExcept(m, m', RingSet(ring) + Addrs(sub))
  {
    var h, c := ring[0], GetChild(m[x], right);
    var m' := AdoptSide(m, x, h, right);
    assert h in RingSet(ring);
    assert forall i | 0 < i < |ring| :: ring[i] != h && ring[i] in RingSet(ring);
    LinkedIn(m, sub, c, x, idx);
    LinkedFrame(m, m', other, c', p', idx);
    if sub.Node? {
      Reparent(m, sub, c, x, idx, h);
      LinkedFrame(SetParent(m, c, h), m', sub, c, h, idx);
    }
  }

  lemma AdoptLinked(m: Links, x: Addr, t: Tree, idx: nat, xp: Addr)
    requires x in m && t.Node? && FreeRing(m, t.ring, idx) && Apart(x, t.ring, t.left, t.right)
    requires Linked(m, t.left, m[x].child0, x, idx) && Linked(m, t.right, m[x].child1, x, idx)
    ensures var m' := AdoptLinks(m, x, t.ring[0], xp);
            Linked(m', t, t.ring[0], xp, idx)
  {
    var ring, l, r := t.ring, t.left, t.right;
    var h := ring[0];
    var m1 := SetParent(m, h, xp);
    assert h in RingSet(ring);
    assert forall i | 0 < i < |ring| :: ring[i] != h && ring[i] in RingSet(ring);
    LinkedFrame(m, m1, l, m[x].child0, x, idx);
    LinkedFrame(m, m1, r, m[x].child1, x, idx);
    AdoptSideOk(m1, x, ring, l, r, m[x].child1, x, idx, false);
    var m2 := AdoptSide(m1, x, h, false);
    AdoptSideOk(m2, x, ring, r, l, m2[h].child0, h, idx, true);
  }

  /* ---- unlink_large_chunk as a whole ---- */

  /** The subtree on whose ring x sits. */
  ghost function SubAt(t: Tree, x: Addr): (s: Tree)
    requires x in Addrs(t) && Proper(t)
    ensures s.Node? && Proper(s) && x in s.ring
  {
    if x in t.ring then t else if x in Addrs(t.left) then SubAt(t.left, x) else SubAt(t.right, x)
  }

  /** First part: leave the ring, or cut off the leaf that will take x's place. */
  ghost function Detach(m: Links, t: Tree, x: Addr): Links
    requires t.Node? && Proper(t) && x in m
  {
    if |t.ring| > 1 then (if m[x].fd in m && m[x].bk in m then RingOutLinks(m, x) else m)
    else if IsLeaf(t) || LeafSlot(t).0 !in m then m
    else CutChild(m, LeafSlot(t).0, LeafSlot(t).1)
  }

  /** The chunk that takes x's place, or null. */
  ghost function Successor(m: Links, t: Tree, x: Addr): Addr
    requires t.Node? && Proper(t) && x in m
  {
    if |t.ring| > 1 then m[x].bk else if IsLeaf(t) then 0 else RootOf(Leaf(t))
  }

  /** Second part: point x's parent at r and give r the children of x. */
  function ReplaceLinks(m: Links, x: Addr, r: Addr, isTop: bool): Links
    requires x in m
    requires m[x].parent != 0 && !isTop ==> m[x].parent in m
    requires m[x].parent != 0 && r != 0 ==> r in m
  {
    var xp := m[x].parent;
    if xp == 0 then m else
      var m2 := if isTop then m else m[xp := SetChild(m[xp], m[xp].child0 != x, r)];
      if r == 0 then m2 else AdoptLinks(m2, x, r, xp)
  }

  /** After the first part everything is in place for r = RootOf(t') to replace x in m. */
  ghost predicate Ready(m: Links, t': Tree, x: Addr, idx: nat) {
    && x in m && Proper(t')
    && (t'.Node? ==>
          && FreeRing(m, t'.ring, idx) && Apart(x, t'.ring, t'.left, t'.right)
          && Linked(m, t'.left, m[x].child0, x, idx) && Linked(m, t'.right, m[x].child1, x, idx))
  }

  /** What the first part of the removal of the root of t establishes. */
  ghost predicate Detached(m: Links, t: Tree, root: Addr, parent: Addr, idx: nat)
    requires t.Node? && Proper(t) && root in m
  {
    var m1, t' := Detach(m, t, root), UnlinkTree(t, root);
    && Ready(m1, t', root, idx)
    && Successor(m, t, root) == RootOf(t')
    && SameExcept(m, m1, Addrs(t))
    && m1[root].parent == parent && m1.Keys == m.Keys
  }

  lemma DetachRoot(m: Links, t: Tree, root: Addr, parent: Addr, idx: nat)
    requires t.Node? && Proper(t) && Linked(m, t, root, parent, idx)
    ensures Detached(m, t, root, parent, idx)
  {
    if |t.ring| > 1 {
      DetachHead(m, t, root, parent, idx);
    } else if !IsLeaf(t) {
      DetachInner(m, t, root, parent, idx);
    }
  }

  lemma InnerApart(t: Tree, x: Addr)
    requires t.Node? && Proper(t) && t.ring == [x] && !IsLeaf(t)
    ensures var t' := UnlinkTree(t, x);
            && t' == Node(Leaf(t).ring, Leaf(t).size, PopLeaf(t).left, PopLeaf(t).right)
            && PopLeaf(t).ring == [x] && Proper(t') && Apart(x, t'.ring, t'.left, t'.right)
  {
    PopLeafKeeps(t);
    UnlinkKeeps(t, x);
    assert x in RingSet(PopLeaf(t).ring);
  }

  lemma DetachInner(m: Links, t: Tree, root: Addr, parent: Addr, idx: nat)
    requires t.Node? && Proper(t) && Linked(m, t, root, parent, idx) && |t.ring| == 1 && !IsLeaf(t)
    ensures Detached(m, t, root, parent, idx)
  {
    assert t.ring == [root];
    InnerApart(t, root);
    PopLeafLinked(m, t, root, parent, idx);
    LeafFree(m, t, root, parent, idx);
    CutKeepsFree(m, t, LeafSlot(t).0, LeafSlot(t).1, idx);
  }

  lemma CutKeepsFree(m: Links, t: Tree, at: Addr, right: bool, idx: nat)
    requires t.Node? && Proper(t) && at in m && at in Addrs(PopLeaf(t)) && FreeRing(m, Leaf(t).ring, idx)
    ensures FreeRing(CutChild(m, at, right), Leaf(t).ring, idx) && at in Addrs(t)
  {
    PopLeafKeeps(t);
    assert forall a | a in Leaf(t).ring :: a in RingSet(Leaf(t).ring);
  }

  lemma HeadApart(t: Tree, x: Addr)
    requires t.Node? && Proper(t) && |t.ring| > 1 && t.ring[0] == x
    ensures var t' := UnlinkTree(t, x);
            && t' == t.(ring := DropAt(t.ring, 0)) && t'.ring[0] == t.ring[|t.ring| - 1]
            && Proper(t') && Apart(x, t'.ring, t'.left, t'.right)
  {
    assert IndexOf(t.ring, x) == 0;
    UnlinkKeeps(t, x);
    DropAtKeeps(t.ring, 0);
    assert x in RingSet(t.ring);
  }

  lemma DetachHead(m: Links, t: Tree, root: Addr, parent: Addr, idx: nat)
    requires t.Node? && Proper(t) && Linked(m, t, root, parent, idx) && |t.ring| > 1
    ensures Detached(m, t, root, parent, idx)
  {
    HeadApart(t, root);
    RingEnds(m, t.ring, 0);
    RingOut(m, t.ring, 0, idx);
    var m1 := RingOutLinks(m, root);
    assert forall a | a in t.ring :: a in RingSet(t.ring);
    LinkedFrame(m, m1, t.left, m[root].child0, root, idx);
    LinkedFrame(m, m1, t.right, m[root].child1, root, idx);
  }

  ghost predicate CanReplace(m: Links, x: Addr, r: Addr, isTop: bool) {
    && x in m
    && (m[x].parent != 0 && !isTop ==> m[x].parent in m)
    && (m[x].parent != 0 && r != 0 ==> r in m)
  }

  /** All link writes of unlink_large_chunk; isTop says that x is the bin's root. */
  ghost function UnlinkLinks(m: Links, t: Tree, x: Addr, isTop: bool): Links
    requires Proper(t) && x in Addrs(t) && x in m
  {
    var sub := SubAt(t, x);
    var m1, r := Detach(m, sub, x), Successor(m, sub, x);
    if CanReplace(m1, x, r, isTop) then ReplaceLinks(m1, x, r, isTop) else m1
  }

  lemma ReadyFrame(m: Links, m': Links, t': Tree, x: Addr, idx: nat)
    requires Ready(m, t', x, idx) && x in m' && m'[x] == m[x] && SameOn(m, m', Addrs(t'))
    ensures Ready(m', t', x, idx)
  {
    if t'.Node? {
      assert forall a | a in t'.ring :: a in RingSet(t'.ring);
      LinkedFrame(m, m', t'.left, m[x].child0, x, idx);
      LinkedFrame(m, m', t'.right, m[x].child1, x, idx);
    }
  }

  lemma ReplaceLinked(m: Links, t': Tree, x: Addr, parent: Addr, idx: nat, isTop: bool)
    requires Ready(m, t', x, idx) && x !in Addrs(t') && m[x].parent == parent != 0
    requires !isTop ==> parent in m && parent !in Addrs(t') && parent != x
    ensures CanReplace(m, x, RootOf(t'), isTop)
    ensures Linked(ReplaceLinks(m, x, RootOf(t'), isTop), t', RootOf(t'), parent, idx)
  {
    var r := RootOf(t');
    var m2 := if isTop then m else m[parent := SetChild(m[parent], m[parent].child0 != x, r)];
    ReadyFrame(m, m2, t', x, idx);
    if t'.Node? {
      assert r in RingSet(t'.ring) && r != 0;
      AdoptLinked(m2, x, t', idx, parent);
    }
  }

  lemma ReplaceFrame(m: Links, x: Addr, r: Addr, isTop: bool)
    requires CanReplace(m, x, r, isTop) && m[x].parent != 0 && x != r
    requires m[x].parent != x && (r != 0 ==> m[x].parent !in {r, m[x].child0, m[x].child1})
    ensures var m', xp := ReplaceLinks(m, x, r, isTop), m[x].parent;
            && m'.Keys == m.Keys
            && SameExcept(m, m', (if r == 0 then {} else {r, m[x].child0, m[x].child1}) + (if isTop then {} else {xp}))
            && (!isTop ==> m'[xp] == SetChild(m[xp], m[xp].child0 != x, r))
  {
  }

  lemma ReadyKids(m: Links, t': Tree, x: Addr, idx: nat)
    requires Ready(m, t', x, idx) && t'.Node?
    ensures {RootOf(t'), m[x].child0, m[x].child1} <= Addrs(t') + {0}
  {
    assert RootOf(t') in RingSet(t'.ring);
    LinkedIn(m, t'.left, m[x].child0, x, idx);
    LinkedIn(m, t'.right, m[x].child1, x, idx);
  }

  lemma ReplaceWhole(m: Links, t': Tree, x: Addr, parent: Addr, idx: nat, isTop: bool)
    requires Ready(m, t', x, idx) && x !in Addrs(t') && m[x].parent == parent != 0 && parent != x && 0 !in m
    requires parent !in Addrs(t') && (!isTop ==> parent in m)
    ensures CanReplace(m, x, RootOf(t'), isTop)
    ensures var m' := ReplaceLinks(m, x, RootOf(t'), isTop);
            && Linked(m', t', RootOf(t'), parent, idx)
            && SameExcept(m, m', Addrs(t') + (if isTop then {} else {parent}))
            && m'.Keys == m.Keys
            && (!isTop ==> m'[parent] == SetChild(m[parent], m[parent].child0 != x, RootOf(t')))
  {
    ReplaceLinked(m, t', x, parent, idx, isTop);
    if t'.Node? { ReadyKids(m, t', x, idx); }
    ReplaceFrame(m, x, RootOf(t'), isTop);
  }

  /** Removing the head of the root's ring. */
  lemma UnlinkHead(m: Links, t: Tree, root: Addr, parent: Addr, idx: nat, isTop: bool)
    requires t.Node? && Proper(t) && Linked(m, t, root, parent, idx) && parent != 0 && 0 !in m
    requires parent !in Addrs(t) && (!isTop ==> parent in m)
    ensures root in Addrs(t)
    ensures var m', t' := UnlinkLinks(m, t, root, isTop), UnlinkTree(t, root);
            && Linked(m', t', RootOf(t'), parent, idx)
            && SameExcept(m, m', Addrs(t) + (if isTop then {} else {parent}))
            && m'.Keys == m.Keys
            && (!isTop ==> m'[parent] == SetChild(m[parent], m[parent].child0 != root, RootOf(t')))
  {
    assert root in RingSet(t.ring);
    UnlinkKeeps(t, root);
    DetachRoot(m, t, root, parent, idx);
    var m1, t' := Detach(m, t, root), UnlinkTree(t, root);
    ReplaceWhole(m1, t', root, parent, idx, isTop);
    assert UnlinkLinks(m, t, root, isTop) == ReplaceLinks(m1, root, RootOf(t'), isTop);
  }

  /** Removing a chunk that is not the head of the root's ring. */
  lemma UnlinkMember(m: Links, t: Tree, root: Addr, parent: Addr, idx: nat, x: Addr)
    requires t.Node? && Proper(t) && Linked(m, t, root, parent, idx) && x in t.ring && x != root
    ensures x in Addrs(t)
    ensures var m', t' := UnlinkLinks(m, t, x, false), UnlinkTree(t, x);
            && Linked(m', t', root, parent, idx)
            && SameExcept(m, m', Addrs(t)) && m'.Keys == m.Keys
  {
    var i := IndexOf(t.ring, x);
    RingOut(m, t.ring, i, idx);
    var m' := RingOutLinks(m, x);
    assert forall a | a in t.ring :: a in RingSet(t.ring);
    LinkedFrame(m, m', t.left, m[root].child0, root, idx);
    LinkedFrame(m, m', t.right, m[root].child1, root, idx);
    assert DropAt(t.ring, i)[0] == root;
  }

  /** Removal at any depth: the link writes represent the tree without x. */
  lemma {:induction false} UnlinkLinked(m: Links, t: Tree, root: Addr, parent: Addr, idx: nat, x: Addr, isTop: bool)
    requires t.Node? && Proper(t) && Linked(m, t, root, parent, idx) && x in Addrs(t)
    requires parent != 0 && 0 !in m && parent !in Addrs(t) && (!isTop && x == root ==> parent in m)
    requires isTop ==> x == root
    ensures x in m
    ensures var m', t' := UnlinkLinks(m, t, x, isTop), UnlinkTree(t, x);
            && Linked(m', t', if x == root then RootOf(t') else root, parent, idx)
            && SameExcept(m, m', Addrs(t) + (if x == root && !isTop then {parent} else {}))
            && m'.Keys == m.Keys
            && (x == root && !isTop ==> m'[parent] == SetChild(m[parent], m[parent].child0 != x, RootOf(t')))
  {
    LinkedIn(m, t, root, parent, idx);
    if x == root {
      UnlinkHead(m, t, root, parent, idx, isTop);
    } else if x in t.ring {
      UnlinkMember(m, t, root, parent, idx, x);
    } else {
      var right := x !in Addrs(t.left);
      var sub, c := Subtree(t, right), GetChild(m[root], right);
      assert root in RingSet(t.ring);
      UnlinkLinked(m, sub, c, root, idx, x, false);
      UnlinkDeep(m, UnlinkLinks(m, sub, x, false), t, root, parent, idx, right, x, UnlinkTree(sub, x));
    }
  }

  lemma UnlinkDeep(m: Links, m': Links, t: Tree, root: Addr, parent: Addr, idx: nat, right: bool, x: Addr, sub': Tree)
    requires t.Node? && Proper(t) && Linked(m, t, root, parent, idx)
    requires var sub, c := Subtree(t, right), GetChild(m[root], right);
             && x in Addrs(sub) && root in m'
             && SameExcept(m, m', Addrs(sub) + (if x == c then {root} else {}))
             && Linked(m', sub', if x == c then RootOf(sub') else c, root, idx)
             && (x == c ==> m'[root] == SetChild(m[root], m[root].child0 != x, RootOf(sub')))
    ensures Linked(m', Graft(t, right, sub'), root, parent, idx)
    ensures SameExcept(m, m', Addrs(t))
  {
    assert forall a | a in t.ring :: a in RingSet(t.ring);
    LinkedIn(m, t.left, m[root].child0, root, idx);
    GraftLinked(m, m', t, root, parent, idx, right, sub');
  }
}
