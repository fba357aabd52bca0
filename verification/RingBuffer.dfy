/**
  The device buffers: rings written by interrupts and read by the main program.  A read is
  a sequence of steps, and an interrupt may fall between any two of them.  Pointers are 16
  bits wide, so a buffer of more than 65536 bytes has fewer slots than its size says.
 */
module RingBuffer {
  import opened Octets
  import opened Arith

  type Element = seq<Byte>

  /** How far a read in progress has come. */
  datatype Phase =
    | Idle
    | Copying(data: Element)   // some bytes of the element copied
    | Copied(data: Element)    // all of them
    | Counted(data: Element)   // the count is down, the read pointer not yet moved

  /** A buffer of n elements of d bytes, and how far the main program is in buf_read. */
  datatype Ring = Ring(w: seq<Byte>, wptr: nat, rptr: nat, count: nat, phase: Phase)

  /** What buf_set allows: sizes are powers of two, from BUF_SIZE_2 to BUF_SIZE_32768. */
  ghost predicate SizesOk(d: nat, n: nat) {
    exists logsize: nat, logdsize: nat ::
      logsize <= 15 && logdsize <= 16 && n == Pow2(logsize) && d == Pow2(logdsize)
  }

  /** BUF_BYTESIZE. */
  function Bytes(d: nat, n: nat): nat { n * d }

  /** How many slots the pointers reach. */
  function Slots(d: nat, n: nat): nat
    requires d > 0
  {
    if Bytes(d, n) <= 0x1_0000 then n else 0x1_0000 / d
  }

  /** Where slot m starts, counted round the ring. */
  function Start(d: nat, n: nat, m: nat): nat {
    if d > 0 && Slots(d, n) > 0 then m % Slots(d, n) * d else 0
  }

  /** BUF_MOD_INCR, on 16 bits, for a buffer of so many bytes. */
  function NextPtr(d: nat, size: nat, p: nat): nat
    requires size > 0
  {
    (p + d) % size % 0x1_0000
  }

  /** The bytes of slot m. */
  ghost function SlotAt(w: seq<Byte>, d: nat, n: nat, m: nat): Element {
    var at := Start(d, n, m);
    if at + d <= |w| then w[at..at + d] else []
  }

  /** Elements that are counted, and the one whose read is about to end. */
  function Total(r: Ring): nat { r.count + if r.phase.Counted? then 1 else 0 }

  ghost predicate PhaseOk(d: nat, r: Ring) {
    match r.phase
    case Idle => true
    case Copying(data) => |data| < d && r.count > 0
    case Copied(data) => |data| == d && r.count > 0
    case Counted(data) => |data| == d
  }

  /** The number of the slot that starts at byte p. */
  function First(d: nat, p: nat): nat { if d > 0 then p / d else 0 }

  /** The pointers are those of slots, and as far apart as the count says; the count is at most one too high. */
  ghost predicate RingOk(d: nat, n: nat, r: Ring) {
    && d > 0 && |r.w| == Bytes(d, n) && r.count <= n + 1 && PhaseOk(d, r) && SizesOk(d, n)
    && First(d, r.rptr) < Slots(d, n) && r.rptr == Start(d, n, First(d, r.rptr))
    && r.wptr == Start(d, n, First(d, r.rptr) + Total(r))
  }

  /** The element that a read in progress, or the next one, gives if nothing more is written. */
  ghost function Current(d: nat, n: nat, r: Ring): Element {
    var slot := SlotAt(r.w, d, n, First(d, r.rptr));
    match r.phase
    case Idle => slot
    case Copying(data) => if |data| <= |slot| then data + slot[|data|..] else data
    case Copied(data) => data
    case Counted(data) => data
  }

  /** The element that the j-th read from now gives if nothing more is written. */
  ghost function AheadAt(d: nat, n: nat, r: Ring, j: nat): Element {
    if j == 0 then Current(d, n, r) else SlotAt(r.w, d, n, First(d, r.rptr) + j)
  }

  /** What reads give, one after the other, if nothing more is written. */
  ghost function Ahead(d: nat, n: nat, r: Ring): (s: seq<Element>)
    ensures |s| == Total(r) && forall j | 0 <= j < |s| :: s[j] == AheadAt(d, n, r, j)
  {
    seq(Total(r), j requires 0 <= j < Total(r) => AheadAt(d, n, r, j))
  }

  /* ---- The operations ---- */

  /** w with e written at byte `at`, if it fits. */
  ghost function Placed(w: seq<Byte>, at: nat, e: Element): seq<Byte> {
    if at + |e| <= |w| then w[..at] + e + w[at + |e|..] else w
  }

  /** buf_write; false when it refuses. */
  ghost function WriteTo(d: nat, n: nat, r: Ring, e: Element): (Ring, bool)
    requires |r.w| > 0
  {
    if r.count > n then (r, false)
    else (r.(w := Placed(r.w, r.wptr, e), wptr := NextPtr(d, |r.w|, r.wptr), count := r.count + 1), true)
  }

  /** The next step of buf_read: the test for data, a byte, the count, the pointer; at its end, the element read. */
  ghost function MainStep(d: nat, n: nat, r: Ring): (Ring, seq<Element>)
    requires RingOk(d, n, r)
  {
    match r.phase
    case Idle => (if r.count == 0 then r else r.(phase := Copying([])), [])
    case Copying(data) =>
      InBuffer(d, n, r);
      var data' := data + [r.w[r.rptr + |data|]];
      (r.(phase := if |data'| == d then Copied(data') else Copying(data')), [])
    case Copied(data) => (r.(count := r.count - 1, phase := Counted(data)), [])
    case Counted(data) => InBuffer(d, n, r); (r.(rptr := NextPtr(d, |r.w|, r.rptr), phase := Idle), [data])
  }

  /* ---- Arithmetic of the ring ---- */

  lemma SlotRoom(s: nat, n: nat, d: nat)
    requires s < n
    ensures s * d + d <= n * d
  {
    MoreBy(s, n, d);
  }

  lemma SlotsApart(s: nat, t: nat, d: nat)
    requires s != t
    ensures s * d + d <= t * d || t * d + d <= s * d
  {
    if s < t { MoreBy(s, t, d); } else { MoreBy(t, s, d); }
  }

  lemma {:induction false} Pow2Order(i: nat, j: nat)
    ensures i <= j ==> Pow2(i) <= Pow2(j)
    decreases j
  {
    if i < j { Pow2Order(i, j - 1); }
  }

  /** The slots fill the buffer, or the 65536 bytes that pointers reach. */
  lemma SlotsFill(d: nat, n: nat)
    requires SizesOk(d, n)
    ensures d > 0 && 0 < Slots(d, n) <= n <= 0x8000
    ensures Bytes(d, n) <= 0x1_0000 ==> Slots(d, n) == n
    ensures Bytes(d, n) > 0x1_0000 ==> Slots(d, n) < n && Slots(d, n) * d == 0x1_0000 && Bytes(d, n) >= 0x2_0000
  {
    var a: nat, b: nat :| a <= 15 && b <= 16 && n == Pow2(a) && d == Pow2(b);
    Pow2Values();
    Pow2Order(a, 15);
    Pow2Add(a, b);
    if a + b <= 16 {
      Pow2Order(a + b, 16);
    } else {
      Pow2Order(17, a + b);
      Pow2Add(16 - b, b);
      var c := Pow2(16 - b);
      Quotient(0x1_0000, d, c, 0);
      if n <= c {
        if n < c { MoreBy(n, c, d); }
        assert false;
      }
    }
  }

  /** The increment on bytes: from a slot's start to the next, and from the last one to 0. */
  lemma Wrap(p: nat, d: nat, reach: nat, size: nat)
    requires d > 0 && p + d <= reach && (reach == size <= 0x1_0000 || (reach == 0x1_0000 && size >= 0x2_0000))
    ensures (p + d) % size % 0x1_0000 == if p + d < reach then p + d else 0
  {
    if p + d < size { Quotient(p + d, size, 0, p + d); } else { Quotient(p + d, size, 1, 0); }
  }

  /** BUF_MOD_INCR moves a pointer to the next slot, round a ring of as many slots as pointers reach. */
  lemma NextSlot(d: nat, n: nat, m: nat)
    requires SizesOk(d, n)
    ensures Bytes(d, n) > 0 && NextPtr(d, Bytes(d, n), Start(d, n, m)) == Start(d, n, m + 1)
  {
    hide SizesOk;
    SlotsFill(d, n);
    hide Slots;
    var c := Slots(d, n);
    var s := m % c;
    SlotRoom(0, n, d);
    SlotRoom(s, c, d);
    NextMod(m, c);
    NextBytes(s, c, d);
    Wrap(s * d, d, c * d, Bytes(d, n));
  }

  lemma NextBytes(s: nat, c: nat, d: nat)
    requires s < c && d > 0
    ensures (if s + 1 < c then s + 1 else 0) * d == if s * d + d < c * d then s * d + d else 0
  {
    assert (s + 1) * d == s * d + d;
    if s + 1 < c { SlotRoom(s + 1, c, d); }
  }

  /** Every slot lies in the buffer. */
  lemma SlotIn(d: nat, n: nat, m: nat)
    requires SizesOk(d, n)
    ensures Bytes(d, n) > 0 && Start(d, n, m) + d <= Bytes(d, n)
  {
    SlotsFill(d, n);
    var c := Slots(d, n);
    SlotRoom(m % c, c, d);
    SlotRoom(0, n, d);
    if c < n { MoreBy(c, n, d); }
  }

  lemma InBuffer(d: nat, n: nat, r: Ring)
    requires RingOk(d, n, r)
    ensures |r.w| > 0 && r.rptr + d <= |r.w| && r.wptr + d <= |r.w|
  {
    hide Bytes, SizesOk, Slots, PhaseOk, Start;
    SlotIn(d, n, First(d, r.rptr));
    SlotIn(d, n, First(d, r.rptr) + Total(r));
  }

  /** Going on from slot x, taken round the ring, is going on from x. */
  lemma StartPlus(d: nat, n: nat, x: nat, y: nat)
    requires d > 0 && Slots(d, n) > 0
    ensures Start(d, n, x % Slots(d, n) + y) == Start(d, n, x + y)
  {
    hide Bytes, Slots;
    ModPlus(x, y, Slots(d, n));
  }

  /** The slot that starts at byte p. */
  lemma SlotOf(d: nat, n: nat, m: nat)
    requires d > 0 && Slots(d, n) > 0
    ensures Start(d, n, m) / d == m % Slots(d, n) && Start(d, n, m) == Start(d, n, m % Slots(d, n))
  {
    hide Bytes, Slots;
    Quotient(Start(d, n, m), d, m % Slots(d, n), 0);
    ModPlus(m, 0, Slots(d, n));
  }

  /** Slots are the same or apart. */
  lemma StartsApart(d: nat, n: nat, x: nat, y: nat)
    requires d > 0 && Slots(d, n) > 0 && x % Slots(d, n) != y % Slots(d, n)
    ensures Start(d, n, x) + d <= Start(d, n, y) || Start(d, n, y) + d <= Start(d, n, x)
  {
    hide Bytes, Slots;
    SlotsApart(x % Slots(d, n), y % Slots(d, n), d);
  }

  /* ---- A read ---- */

  /** Moving the read pointer on. */
  lemma Advance(d: nat, n: nat, r: Ring, r': Ring)
    requires RingOk(d, n, r) && r.phase.Counted? && |r.w| > 0
    requires r' == r.(rptr := NextPtr(d, |r.w|, r.rptr), phase := Idle)
    ensures RingOk(d, n, r') && First(d, r'.rptr) == (First(d, r.rptr) + 1) % Slots(d, n)
  {
    hide Bytes, SizesOk, Slots, Start, NextPtr;
    var first := First(d, r.rptr);
    NextSlot(d, n, first);
    hide First;
    SlotOf(d, n, first + 1);
    FirstIs(d, n, r', first + 1);
    StartPlus(d, n, first + 1, Total(r'));
  }

  lemma FirstIs(d: nat, n: nat, r: Ring, m: nat)
    requires d > 0 && Slots(d, n) > 0 && r.rptr == Start(d, n, m)
    ensures First(d, r.rptr) == m % Slots(d, n) < Slots(d, n)
  {
    SlotOf(d, n, m);
  }

  lemma AheadNext(d: nat, n: nat, r: Ring, r': Ring, j: nat)
    requires RingOk(d, n, r) && r.phase.Counted? && |r.w| > 0
    requires r' == r.(rptr := NextPtr(d, |r.w|, r.rptr), phase := Idle)
    ensures AheadAt(d, n, r', j) == AheadAt(d, n, r, j + 1)
  {
    hide Bytes, SizesOk, Slots, Start, NextPtr, First;
    Advance(d, n, r, r');
    var next := First(d, r.rptr) + 1;
    StartPlus(d, n, next, j);
    assert next + j == First(d, r.rptr) + (j + 1);
    assert j == 0 ==> First(d, r'.rptr) + j == First(d, r'.rptr);
  }

  lemma CurrentRead(d: nat, n: nat, r: Ring)
    requires r.phase.Counted?
    ensures AheadAt(d, n, r, 0) == r.phase.data
  {
  }

  /** The end of a read: its element is no longer ahead. */
  lemma EndOfRead(d: nat, n: nat, r: Ring)
    requires RingOk(d, n, r) && r.phase.Counted?
    ensures var (r', got) := MainStep(d, n, r); RingOk(d, n, r') && Ahead(d, n, r) == got + Ahead(d, n, r')
  {
    hide Bytes, SizesOk, Slots, Start, NextPtr, First, RingOk, Current, SlotAt;
    InBuffer(d, n, r);
    var r' := MainStep(d, n, r).0;
    Advance(d, n, r, r');
    forall j | 0 <= j < Total(r') ensures Ahead(d, n, r')[j] == Ahead(d, n, r)[j + 1] { AheadNext(d, n, r, r', j); }
    CurrentRead(d, n, r);
    hide Ahead, AheadAt;
    assert Ahead(d, n, r) == [r.phase.data] + Ahead(d, n, r');
  }

  lemma CurrentSlot(d: nat, n: nat, r: Ring)
    requires RingOk(d, n, r) && r.rptr + d <= |r.w|
    ensures SlotAt(r.w, d, n, First(d, r.rptr)) == r.w[r.rptr..r.rptr + d]
  {
    hide SizesOk, Bytes, Slots, Start, First;
  }

  lemma CopyOne(d: nat, n: nat, r: Ring)
    requires RingOk(d, n, r) && r.phase.Copying?
    ensures var r' := MainStep(d, n, r).0; PhaseOk(d, r') && r'.count == r.count && !r'.phase.Counted?
    ensures Current(d, n, MainStep(d, n, r).0) == Current(d, n, r)
  {
    InBuffer(d, n, r);
    CurrentSlot(d, n, r);
    assert |r.phase.data| < d;
    hide SizesOk, Bytes, Slots, Start, First, RingOk, SlotAt;
    OneMore(r.w, d, r.rptr, r.phase.data);
  }

  /** A read that has not come to its end: what is ahead stays as it is. */
  lemma ReadGoesOn(d: nat, n: nat, r: Ring)
    requires RingOk(d, n, r) && !r.phase.Counted?
    ensures var (r', got) := MainStep(d, n, r); RingOk(d, n, r') && Ahead(d, n, r) == Ahead(d, n, r') && got == []
  {
    hide Bytes, SizesOk, Slots, Start, First, SlotAt, Current;
    InBuffer(d, n, r);
    if r.phase.Copying? {
      CopyOne(d, n, r);
    } else {
      SameCurrent(d, n, r);
    }
  }

  lemma SameCurrent(d: nat, n: nat, r: Ring)
    requires RingOk(d, n, r) && (r.phase.Idle? || r.phase.Copied?)
    ensures Total(r) > 0 ==> Current(d, n, MainStep(d, n, r).0) == Current(d, n, r)
  {
    hide Bytes, SizesOk, Slots, Start, First;
    InBuffer(d, n, r);
    CurrentSlot(d, n, r);
    hide SlotAt;
  }

  /**
    No step of a read loses or invents an element: what it gives, and what is then still ahead, is what was ahead.
   */
  lemma MainConserves(d: nat, n: nat, r: Ring)
    requires RingOk(d, n, r)
    ensures var (r', got) := MainStep(d, n, r); RingOk(d, n, r') && Ahead(d, n, r) == got + Ahead(d, n, r')
  {
    hide RingOk, Ahead;
    if r.phase.Counted? { EndOfRead(d, n, r); } else { ReadGoesOn(d, n, r); }
  }

  lemma OneMore(w: seq<Byte>, d: nat, at: nat, data: Element)
    requires at + d <= |w| && |data| < d
    ensures var data', slot := data + [w[at + |data|]], w[at..at + d];
            data' + slot[|data'|..] == data + slot[|data|..] && (|data'| == d ==> slot[|data'|..] == [])
  {
  }

  /* ---- A write ---- */

  /** The element whose slot is written next. */
  ghost function Under(d: nat, r: Ring): Element {
    if r.wptr + d <= |r.w| then r.w[r.wptr..r.wptr + d] else []
  }

  /** The element that is read next, or being read, once e has been written to its slot. */
  ghost function Rewritten(phase: Phase, e: Element): Element {
    match phase
    case Idle => e
    case Copying(data) => if |data| <= |e| then data + e[|data|..] else data
    case Copied(data) => data
    case Counted(data) => data
  }

  lemma SlotAfter(d: nat, n: nat, w: seq<Byte>, e: Element, x: nat, m: nat)
    requires SizesOk(d, n) && |w| == Bytes(d, n) && |e| == d > 0 && Slots(d, n) > 0
    ensures var w' := Placed(w, Start(d, n, x), e);
            SlotAt(w', d, n, m) == if m % Slots(d, n) == x % Slots(d, n) then e else SlotAt(w, d, n, m)
  {
    hide SizesOk, Bytes, Slots;
    SlotIn(d, n, x);
    SlotIn(d, n, m);
    if m % Slots(d, n) != x % Slots(d, n) { StartsApart(d, n, m, x); }
    hide Start;
  }

  lemma WriteKeeps(d: nat, n: nat, r: Ring, e: Element)
    requires RingOk(d, n, r) && |e| == d
    ensures |r.w| > 0 && RingOk(d, n, WriteTo(d, n, r, e).0)
  {
    hide SizesOk, Bytes, Slots, Start, First, NextPtr;
    InBuffer(d, n, r);
    NextSlot(d, n, First(d, r.rptr) + Total(r));
  }

  /** The elements after the one being read, once e has been written. */
  lemma LaterAfter(d: nat, n: nat, r: Ring, e: Element, j: nat)
    requires RingOk(d, n, r) && |e| == d && r.count <= n && j > 0
    ensures |r.w| > 0 && Slots(d, n) > 0
    ensures var first, t, c := First(d, r.rptr), Total(r), Slots(d, n);
            AheadAt(d, n, WriteTo(d, n, r, e).0, j) ==
            if (first + j) % c == (first + t) % c then e else AheadAt(d, n, r, j)
  {
    hide SizesOk, Bytes, Slots, Start, First, NextPtr, SlotAt, Placed;
    InBuffer(d, n, r);
    SlotAfter(d, n, r.w, e, First(d, r.rptr) + Total(r), First(d, r.rptr) + j);
  }

  /** The element being read, or read next, once e has been written. */
  lemma CurrentAfter(d: nat, n: nat, r: Ring, e: Element)
    requires RingOk(d, n, r) && |e| == d && r.count <= n
    ensures |r.w| > 0 && Slots(d, n) > 0
    ensures var first, t, c := First(d, r.rptr), Total(r), Slots(d, n);
            AheadAt(d, n, WriteTo(d, n, r, e).0, 0) ==
            if first % c == (first + t) % c then Rewritten(r.phase, e) else AheadAt(d, n, r, 0)
  {
    hide SizesOk, Bytes, Slots, Start, First, NextPtr, SlotAt, Placed;
    InBuffer(d, n, r);
    SlotAfter(d, n, r.w, e, First(d, r.rptr) + Total(r), First(d, r.rptr));
  }

  lemma UnderIs(d: nat, n: nat, r: Ring)
    requires RingOk(d, n, r)
    ensures Under(d, r) == SlotAt(r.w, d, n, First(d, r.rptr) + Total(r)) && |Under(d, r)| == d
  {
    hide SizesOk, Bytes, Slots, Start, First;
    InBuffer(d, n, r);
  }

  /** The slot written next is that of the c-th element before the new one, and of none between. */
  lemma SlotsBefore(first: nat, j: nat, t: nat, c: nat)
    requires c > 0 && j < t <= j + c
    ensures (first + j) % c == (first + t) % c <==> t == j + c
  {
    if t == j + c { SameMod(first + j, first + t, c); } else { ModDiffer(first + j, first + t, c); }
  }

  /** There is a free slot, or the element in the slot written next has been copied out already. */
  ghost predicate HasRoom(d: nat, n: nat, r: Ring)
    requires d > 0
  {
    r.count < Slots(d, n) || (r.count == Slots(d, n) && r.phase.Copied?)
  }

  /**
    When a write loses nothing: there is room; or all slots are taken, the oldest element is being copied, and e agrees
    with it from the next byte to copy on; or e is what the slot holds anyway.
   */
  ghost predicate LosesNothing(d: nat, n: nat, r: Ring, e: Element)
    requires d > 0
  {
    || HasRoom(d, n, r)
    || (r.count == Slots(d, n) && r.phase.Copying? && Agrees(e, Under(d, r), |r.phase.data|))
    || e == Under(d, r)
  }

  predicate Agrees(e: Element, old_: Element, k: nat) { k <= |e| == |old_| && e[k..] == old_[k..] }

  /** A write that finds room adds its element, at any point of a read. */
  lemma WriteAdds(d: nat, n: nat, r: Ring, e: Element)
    requires RingOk(d, n, r) && |e| == d && d > 0 && r.count <= n && HasRoom(d, n, r)
    ensures |r.w| > 0 && Ahead(d, n, WriteTo(d, n, r, e).0) == Ahead(d, n, r) + [e]
  {
    hide SizesOk, Bytes, Slots, Start, First, NextPtr, SlotAt, Placed, RingOk, Current;
    InBuffer(d, n, r);
    var t, r' := Total(r), WriteTo(d, n, r, e).0;
    forall j | 0 <= j <= t ensures AheadAt(d, n, r', j) == if j == t then e else AheadAt(d, n, r, j) {
      if j > 0 {
        LaterAfter(d, n, r, e, j);
        if j < t { SlotsBefore(First(d, r.rptr), j, t, Slots(d, n)); }
      } else {
        CurrentAfter(d, n, r, e);
        if 0 < t { SlotsBefore(First(d, r.rptr), 0, t, Slots(d, n)); }
        CurrentKept(d, n, r, e);
        if t == 0 { NoneIdle(d, n, r); }
      }
    }
    hide AheadAt;
  }

  lemma NoneIdle(d: nat, n: nat, r: Ring)
    requires RingOk(d, n, r) && Total(r) == 0
    ensures r.phase == Idle
  {
  }

  lemma CurrentKept(d: nat, n: nat, r: Ring, e: Element)
    ensures r.phase.Copied? || r.phase.Counted? ==> Rewritten(r.phase, e) == AheadAt(d, n, r, 0)
    ensures r.phase.Idle? ==> Rewritten(r.phase, e) == e
  {
  }

  /** A write of what the slot holds changes no byte. */
  lemma WriteSame(d: nat, n: nat, r: Ring, e: Element)
    requires RingOk(d, n, r) && d > 0 && r.count <= n && e == Under(d, r)
    ensures |r.w| > 0 && Ahead(d, n, WriteTo(d, n, r, e).0) == Ahead(d, n, r) + [e]
  {
    hide SizesOk, Bytes, Slots, Start, First, NextPtr, SlotAt;
    InBuffer(d, n, r);
    UnderIs(d, n, r);
    var t, r' := Total(r), WriteTo(d, n, r, e).0;
    assert r'.w == r.w;
    if t == 0 { NoneIdle(d, n, r); }
    forall j | 0 <= j <= t ensures AheadAt(d, n, r', j) == if j == t then e else AheadAt(d, n, r, j) {
      assert j == 0 ==> First(d, r.rptr) + t == First(d, r.rptr) + j || j < t;
    }
    hide AheadAt;
  }

  /**
    A write to a full ring, at any point of a read.  Once the oldest element has been copied out nothing is lost; else e
    takes the place of the oldest element still to be copied, or of what is still to be copied of it.
   */
  lemma FullWrite(d: nat, n: nat, r: Ring, e: Element)
    requires RingOk(d, n, r) && |e| == d && d > 0 && r.count == Slots(d, n) <= n
    ensures |r.w| > 0 && |Ahead(d, n, r)| > (if r.phase.Counted? then 1 else 0)
    ensures var a, a' := Ahead(d, n, r), Ahead(d, n, WriteTo(d, n, r, e).0);
            match r.phase
            case Idle => a[0] == Under(d, r) && a' == a[0 := e] + [e]
            case Copying(data) =>
              && |data| <= d == |Under(d, r)| && a[0] == data + Under(d, r)[|data|..]
              && a' == a[0 := data + e[|data|..]] + [e]
            case Copied(_) => a' == a + [e]
            case Counted(_) => a[1] == Under(d, r) && a' == a[1 := e] + [e]
  {
    hide SizesOk, Bytes, Slots, Start, First, NextPtr, SlotAt, Placed;
    InBuffer(d, n, r);
    var first, t, c, r' := First(d, r.rptr), Total(r), Slots(d, n), WriteTo(d, n, r, e).0;
    FullUnder(d, n, r);
    forall j | 0 <= j < t ensures AheadAt(d, n, r', j) ==
        if j + c != t then AheadAt(d, n, r, j) else if j == 0 then Rewritten(r.phase, e) else e
    {
      if j > 0 { LaterAfter(d, n, r, e, j); } else { CurrentAfter(d, n, r, e); }
      if t - j <= c { SlotsBefore(first, j, t, c); } else { CurrentKept(d, n, r, e); }
    }
    LaterAfter(d, n, r, e, t);
    CurrentKept(d, n, r, e);
    hide AheadAt, RingOk, Current;
  }

  /** What is under the write pointer of a full ring: the oldest element still to be copied. */
  lemma FullUnder(d: nat, n: nat, r: Ring)
    requires RingOk(d, n, r) && d > 0 && r.count == Slots(d, n)
    ensures Total(r) > 0
    ensures match r.phase
            case Idle => AheadAt(d, n, r, 0) == Under(d, r)
            case Copying(data) =>
              |data| <= d == |Under(d, r)| && AheadAt(d, n, r, 0) == data + Under(d, r)[|data|..]
            case Copied(_) => true
            case Counted(_) => AheadAt(d, n, r, 1) == Under(d, r)
  {
    hide SizesOk, Bytes, Slots, Start, First;
    InBuffer(d, n, r);
    UnderIs(d, n, r);
    hide SlotAt;
    SameSlot(r.w, d, n, First(d, r.rptr), Slots(d, n));
  }

  lemma SameSlot(w: seq<Byte>, d: nat, n: nat, x: nat, c: nat)
    requires d > 0 && c == Slots(d, n) > 0
    ensures SlotAt(w, d, n, x + c) == SlotAt(w, d, n, x) && SlotAt(w, d, n, x + c + 1) == SlotAt(w, d, n, x + 1)
  {
    hide Slots;
    SameMod(x, x + c, c);
    SameMod(x + 1, x + 1 + c, c);
  }

  /** With more counted than there are slots, a write that is accepted replaces an element still to be copied. */
  lemma OverfullWrite(d: nat, n: nat, r: Ring, e: Element)
    requires RingOk(d, n, r) && |e| == d && d > 0 && Slots(d, n) < r.count <= n && e != Under(d, r)
    ensures |r.w| > 0 && Ahead(d, n, WriteTo(d, n, r, e).0) != Ahead(d, n, r) + [e]
  {
    hide SizesOk, Bytes, Slots, Start, First, NextPtr, SlotAt, Placed;
    InBuffer(d, n, r);
    UnderIs(d, n, r);
    var first, t, c, r' := First(d, r.rptr), Total(r), Slots(d, n), WriteTo(d, n, r, e).0;
    var j := t - c;
    LaterAfter(d, n, r, e, j);
    SlotsBefore(first, j, t, c);
    SameSlot(r.w, d, n, first + j, c);
    assert first + j + c == first + t;
    assert Ahead(d, n, r')[j] == e && (Ahead(d, n, r) + [e])[j] == Under(d, r);
  }

  /**
    What a write that is accepted loses, in any state of the ring and at any point of a read: nothing is lost, and the
    new element comes last, exactly when LosesNothing.
   */
  lemma WriteExact(d: nat, n: nat, r: Ring, e: Element)
    requires RingOk(d, n, r) && |e| == d && d > 0 && r.count <= n
    ensures |r.w| > 0 && (Ahead(d, n, WriteTo(d, n, r, e).0) == Ahead(d, n, r) + [e] <==> LosesNothing(d, n, r, e))
  {
    hide RingOk, Slots, Under, Ahead, WriteTo, Agrees;
    if HasRoom(d, n, r) {
      WriteAdds(d, n, r, e);
    } else if e == Under(d, r) {
      WriteSame(d, n, r, e);
    } else if r.count == Slots(d, n) {
      FullWrite(d, n, r, e);
      var a, a' := Ahead(d, n, r), Ahead(d, n, WriteTo(d, n, r, e).0);
      if r.phase.Copying? { SameRest(r.phase.data, e, Under(d, r)); }
      var k := if r.phase.Counted? then 1 else 0;
      Replaced(a, k, a'[k], e);
    } else {
      OverfullWrite(d, n, r, e);
    }
  }

  lemma Replaced(a: seq<Element>, k: nat, x: Element, e: Element)
    requires k < |a|
    ensures a[k := x] + [e] == a + [e] <==> a[k] == x
  {
    assert (a[k := x] + [e])[k] == x && (a + [e])[k] == a[k];
  }

  lemma SameRest(data: Element, e: Element, u: Element)
    requires |data| <= |e| == |u|
    ensures Agrees(e, u, |data|) <==> data + e[|data|..] == data + u[|data|..]
  {
    assert (data + e[|data|..])[|data|..] == e[|data|..] && (data + u[|data|..])[|data|..] == u[|data|..];
  }

  /* ---- Runs ---- */

  /** What can happen next: an interrupt with an element, or the next step of the main program's read. */
  datatype Event = Interrupt(e: Element) | Main

  /**
    A run so far: the ring, the elements read, those whose write was accepted, whether every write found fewer elements
    counted than the buffer's size, and whether every accepted write lost nothing.
   */
  datatype Outcome = Outcome(ring: Ring, got: seq<Element>, accepted: seq<Element>, checked: bool, lossless: bool)

  ghost predicate EventsOk(d: nat, events: seq<Event>) {
    forall i | 0 <= i < |events| :: events[i].Interrupt? ==> |events[i].e| == d
  }

  ghost function Next(d: nat, n: nat, o: Outcome, ev: Event): Outcome
    requires RingOk(d, n, o.ring)
  {
    InBuffer(d, n, o.ring);
    match ev
    case Main => var (r, got) := MainStep(d, n, o.ring); o.(ring := r, got := o.got + got)
    case Interrupt(e) =>
      var (r, ok) := WriteTo(d, n, o.ring, e);
      Outcome(r, o.got, if ok then o.accepted + [e] else o.accepted, o.checked && o.ring.count < n,
              o.lossless && (ok ==> LosesNothing(d, n, o.ring, e)))
  }

  lemma NextOk(d: nat, n: nat, o: Outcome, ev: Event)
    requires RingOk(d, n, o.ring) && (ev.Interrupt? ==> |ev.e| == d)
    ensures RingOk(d, n, Next(d, n, o, ev).ring)
  {
    hide RingOk, MainStep, WriteTo, Ahead, LosesNothing;
    if ev.Interrupt? { WriteKeeps(d, n, o.ring, ev.e); } else { MainConserves(d, n, o.ring); }
  }

  ghost function RunAll(d: nat, n: nat, r: Ring, events: seq<Event>): (o: Outcome)
    requires RingOk(d, n, r) && EventsOk(d, events)
    ensures RingOk(d, n, o.ring)
    decreases |events|
  {
    if events == [] then Outcome(r, [], [], true, true)
    else
      var o := RunAll(d, n, r, events[..|events| - 1]);
      NextOk(d, n, o, events[|events| - 1]);
      Next(d, n, o, events[|events| - 1])
  }

  /**
    Every interleaving of interrupts with the steps of reads: if no accepted write loses something, what is read, and
    what is then ahead, is what was ahead and after it all that was accepted, in order.
   */
  lemma {:induction false} RunDelivers(d: nat, n: nat, r: Ring, events: seq<Event>)
    requires RingOk(d, n, r) && EventsOk(d, events)
    ensures var o := RunAll(d, n, r, events); o.lossless ==> o.got + Ahead(d, n, o.ring) == Ahead(d, n, r) + o.accepted
    decreases |events|
  {
    hide RingOk, Ahead, Next;
    if events == [] {
      assert Ahead(d, n, r) + [] == [] + Ahead(d, n, r);
    } else {
      var o, ev := RunAll(d, n, r, events[..|events| - 1]), events[|events| - 1];
      RunDelivers(d, n, r, events[..|events| - 1]);
      if o.lossless {
        match ev
        case Main => ReadDelivers(d, n, o, Ahead(d, n, r));
        case Interrupt(e) => WriteDelivers(d, n, o, e, Ahead(d, n, r));
      }
      NextLossless(d, n, o, ev);
    }
  }

  lemma NextLossless(d: nat, n: nat, o: Outcome, ev: Event)
    requires RingOk(d, n, o.ring)
    ensures Next(d, n, o, ev).lossless ==> o.lossless
  {
    hide RingOk, MainStep, WriteTo, LosesNothing;
  }

  lemma ReadDelivers(d: nat, n: nat, o: Outcome, before: seq<Element>)
    requires RingOk(d, n, o.ring) && o.got + Ahead(d, n, o.ring) == before + o.accepted
    ensures var o' := Next(d, n, o, Main); o'.got + Ahead(d, n, o'.ring) == before + o'.accepted
  {
    hide RingOk, MainStep, Ahead;
    var o' := Next(d, n, o, Main);
    MainConserves(d, n, o.ring);
    assert o.got + (MainStep(d, n, o.ring).1 + Ahead(d, n, o'.ring)) == o'.got + Ahead(d, n, o'.ring);
  }

  lemma WriteDelivers(d: nat, n: nat, o: Outcome, e: Element, before: seq<Element>)
    requires RingOk(d, n, o.ring) && |e| == d && o.got + Ahead(d, n, o.ring) == before + o.accepted
    ensures var o' := Next(d, n, o, Interrupt(e)); o'.lossless ==> o'.got + Ahead(d, n, o'.ring) == before + o'.accepted
  {
    assert d > 0;
    hide RingOk, LosesNothing, Ahead, Placed, NextPtr;
    if o.ring.count <= n {
      WriteExact(d, n, o.ring, e);
      assert o.got + (Ahead(d, n, o.ring) + [e]) == before + (o.accepted + [e]) by {
        Regroup(o.got, Ahead(d, n, o.ring), before, o.accepted, e);
      }
    }
  }

  lemma Regroup(a: seq<Element>, b: seq<Element>, c: seq<Element>, f: seq<Element>, e: Element)
    requires a + b == c + f
    ensures a + (b + [e]) == c + (f + [e])
  {
    assert a + (b + [e]) == a + b + [e] && c + (f + [e]) == c + f + [e];
  }

  /** With at most 65536 bytes it is enough to look at the count before each write. */
  lemma {:induction false} CheckedRun(d: nat, n: nat, r: Ring, events: seq<Event>)
    requires RingOk(d, n, r) && EventsOk(d, events) && Bytes(d, n) <= 0x1_0000
    ensures var o := RunAll(d, n, r, events); o.checked ==> o.lossless
    decreases |events|
  {
    if events != [] {
      CheckedRun(d, n, r, events[..|events| - 1]);
      SlotsFill(d, n);
      hide RingOk, MainStep, WriteTo, Slots, Under, Bytes, Agrees;
    }
  }

  /** The steps of k reads. */
  function Work(d: nat, k: nat): nat { k * (d + 3) }

  lemma WorkMore(d: nat, k: nat)
    ensures Work(d, 0) == 0 && Work(d, k + 1) == Work(d, k) + d + 3
  {
    assert (k + 1) * (d + 3) == k * (d + 3) + (d + 3);
  }

  /** The steps that reads need to take all elements that are counted. */
  ghost function StepsLeft(d: nat, r: Ring): nat
    requires PhaseOk(d, r)
  {
    match r.phase
    case Idle => Work(d, r.count)
    case Copying(data) => Work(d, r.count - 1) + (d - |data|) + 2
    case Copied(_) => Work(d, r.count - 1) + 2
    case Counted(_) => Work(d, r.count) + 1
  }

  lemma OneStepLess(d: nat, n: nat, r: Ring)
    requires RingOk(d, n, r) && PhaseOk(d, r)
    ensures var r' := MainStep(d, n, r).0;
            PhaseOk(d, r') && StepsLeft(d, r') == if StepsLeft(d, r) == 0 then 0 else StepsLeft(d, r) - 1
    ensures StepsLeft(d, r) == 0 ==> r.phase == Idle && r.count == 0
  {
    InBuffer(d, n, r);
    assert d > 0;
    hide RingOk, Work, NextPtr;
    WorkMore(d, if r.count > 0 then r.count - 1 else 0);
  }

  ghost function Steps(k: nat): (events: seq<Event>)
    ensures |events| == k && forall i | 0 <= i < k :: events[i] == Main
  {
    seq(k, _ => Main)
  }

  lemma {:induction false} StepsTaken(d: nat, n: nat, r: Ring, k: nat)
    requires RingOk(d, n, r) && PhaseOk(d, r) && k <= StepsLeft(d, r)
    ensures var o := RunAll(d, n, r, Steps(k));
            o.lossless && o.accepted == [] && PhaseOk(d, o.ring) && StepsLeft(d, o.ring) == StepsLeft(d, r) - k
  {
    hide RingOk, MainStep, StepsLeft, PhaseOk;
    if k > 0 {
      StepsTaken(d, n, r, k - 1);
      assert Steps(k)[..k - 1] == Steps(k - 1);
      OneStepLess(d, n, RunAll(d, n, r, Steps(k - 1)).ring);
    }
  }

  /** What Ahead means: without writes, so many steps give exactly these elements, and then there is nothing left. */
  lemma ReadsGiveAhead(d: nat, n: nat, r: Ring)
    requires RingOk(d, n, r) && PhaseOk(d, r)
    ensures var o := RunAll(d, n, r, Steps(StepsLeft(d, r)));
            o.got == Ahead(d, n, r) && o.ring.count == 0 && o.ring.phase == Idle
  {
    hide RingOk, MainStep, RunAll, PhaseOk, StepsLeft;
    var k := StepsLeft(d, r);
    var o := RunAll(d, n, r, Steps(k));
    StepsTaken(d, n, r, k);
    OneStepLess(d, n, o.ring);
    RunDelivers(d, n, r, Steps(k));
    assert Ahead(d, n, o.ring) == [];
    assert o.got + [] == o.got && Ahead(d, n, r) + [] == Ahead(d, n, r);
  }

  /* ---- Sizes ---- */

  /** buf_flush: an empty ring. */
  ghost function Flushed(w: seq<Byte>): Ring { Ring(w, 0, 0, 0, Idle) }

  lemma ZeroSlot(d: nat, n: nat)
    requires d > 0 && Slots(d, n) > 0
    ensures First(d, 0) == 0 && Start(d, n, 0) == 0 && Start(d, n, Slots(d, n)) == 0
  {
    hide Slots;
    Quotient(0, d, 0, 0);
    SameMod(0, Slots(d, n), Slots(d, n));
  }

  lemma FlushedOk(d: nat, n: nat, w: seq<Byte>)
    requires SizesOk(d, n) && |w| == Bytes(d, n)
    ensures d > 0 && Slots(d, n) > 0 && RingOk(d, n, Flushed(w)) && Ahead(d, n, Flushed(w)) == []
  {
    hide SizesOk, Bytes, Slots, Start, First;
    SlotsFill(d, n);
    ZeroSlot(d, n);
  }

  /** A ring whose elements are all zero, and all slots taken. */
  lemma FullOfZeros(d: nat, n: nat) returns (r: Ring)
    requires SizesOk(d, n) && d > 0
    ensures RingOk(d, n, r) && r.count == Slots(d, n) && r.phase == Idle && Under(d, r) == seq(d, _ => 0)
  {
    hide SizesOk, Bytes, Slots, Start, First;
    SlotsFill(d, n);
    ZeroSlot(d, n);
    r := Ring(seq(Bytes(d, n), _ => 0), 0, 0, Slots(d, n), Idle);
    assert 0 + Slots(d, n) == Slots(d, n);
    InBuffer(d, n, r);
    assert Under(d, r) == seq(d, _ => 0);
  }

  /** Writes below the count that buf_get_size gives lose nothing exactly if the buffer has at most 65536 bytes. */
  lemma SizeFits(d: nat, n: nat)
    requires SizesOk(d, n)
    ensures d > 0
    ensures Bytes(d, n) <= 0x1_0000 <==>
      forall r, e | RingOk(d, n, r) && |e| == d && r.count < n :: LosesNothing(d, n, r, e)
  {
    hide RingOk, SizesOk, Bytes, Slots, Under;
    SlotsFill(d, n);
    if Bytes(d, n) > 0x1_0000 {
      var r := FullOfZeros(d, n);
      var e := seq(d, _ => 1);
      assert e[0] == 1 && seq(d, _ => 0)[0] == 0;
      assert !LosesNothing(d, n, r, e);
    }
  }

  lemma LargestSizes()
    ensures SizesOk(4, 0x8000) && Bytes(4, 0x8000) == 0x2_0000 && Slots(4, 0x8000) == 0x4000
  {
    Pow2Values();
    assert 0x8000 == Pow2(15) && 4 == Pow2(2);
  }

  ghost function Writes(es: seq<Element>): (events: seq<Event>)
    ensures |events| == |es| && forall i | 0 <= i < |es| :: events[i] == Interrupt(es[i])
  {
    seq(|es|, i requires 0 <= i < |es| => Interrupt(es[i]))
  }

  lemma {:induction false} Fill(d: nat, n: nat, w: seq<Byte>, es: seq<Element>)
    requires SizesOk(d, n) && |w| == Bytes(d, n) && RingOk(d, n, Flushed(w)) && d > 0
    requires (forall i | 0 <= i < |es| :: |es[i]| == d) && |es| <= Slots(d, n) <= n
    ensures var o := RunAll(d, n, Flushed(w), Writes(es));
            o.lossless && o.accepted == es && o.got == [] && o.ring.count == |es| && o.ring.phase == Idle
    decreases |es|
  {
    hide RingOk, SizesOk, Bytes, Slots;
    if es != [] {
      var k := |es| - 1;
      Fill(d, n, w, es[..k]);
      assert Writes(es)[..k] == Writes(es[..k]);
      hide Under, Agrees, Placed, NextPtr;
    }
  }

  /**
    From an empty ring, one write more than there are slots, without a read between: every one is accepted, and all are
    read again exactly if the last element equals the first.
   */
  lemma Overfill(d: nat, n: nat, w: seq<Byte>, es: seq<Element>)
    requires SizesOk(d, n) && |w| == Bytes(d, n) && d > 0 && |es| == Slots(d, n) + 1
    requires forall i | 0 <= i < |es| :: |es[i]| == d
    ensures RingOk(d, n, Flushed(w))
    ensures var o := RunAll(d, n, Flushed(w), Writes(es));
            o.accepted == es && (Ahead(d, n, o.ring) == es <==> es[|es| - 1] == es[0])
  {
    hide RingOk, SizesOk, Bytes, Slots, RunAll, Next, Ahead, WriteTo;
    FlushedOk(d, n, w);
    SlotsFill(d, n);
    var k := |es| - 1;
    Fill(d, n, w, es[..k]);
    RunDelivers(d, n, Flushed(w), Writes(es[..k]));
    var o := RunAll(d, n, Flushed(w), Writes(es[..k]));
    assert [] + Ahead(d, n, o.ring) == Ahead(d, n, o.ring) && [] + es[..k] == es[..k];
    OneMoreWrite(d, n, Flushed(w), es);
    LastWrite(d, n, o.ring, es[..k], es[k]);
    assert es == es[..k] + [es[k]];
  }

  lemma OneMoreWrite(d: nat, n: nat, r: Ring, es: seq<Element>)
    requires RingOk(d, n, r) && es != [] && forall i | 0 <= i < |es| :: |es[i]| == d
    ensures var k := |es| - 1;
            var o, o' := RunAll(d, n, r, Writes(es[..k])), RunAll(d, n, r, Writes(es));
            && |o.ring.w| > 0 && o'.ring == WriteTo(d, n, o.ring, es[k]).0
            && o'.accepted == if WriteTo(d, n, o.ring, es[k]).1 then o.accepted + [es[k]] else o.accepted
  {
    hide RingOk, LosesNothing, WriteTo;
    var k := |es| - 1;
    assert Writes(es)[..k] == Writes(es[..k]);
    InBuffer(d, n, RunAll(d, n, r, Writes(es[..k])).ring);
  }

  lemma LastWrite(d: nat, n: nat, r: Ring, front: seq<Element>, e: Element)
    requires RingOk(d, n, r) && |e| == d > 0 && r.count == Slots(d, n) <= n && r.phase == Idle
    requires Ahead(d, n, r) == front
    ensures |r.w| > 0 && front != [] && WriteTo(d, n, r, e).1
    ensures Ahead(d, n, WriteTo(d, n, r, e).0) == front + [e] <==> e == front[0]
  {
    hide RingOk, Slots, Ahead, Placed, NextPtr, Under;
    FullWrite(d, n, r, e);
    Replaced(front, 0, e, e);
  }

  /** The largest buffer, BUF_SIZE_32768 of BUF_DSIZE_U32, has 16384 slots: one element more, and the first is lost. */
  lemma LargestBuffer(w: seq<Byte>, es: seq<Element>)
    requires |w| == 0x2_0000 && |es| == 0x4001 && es[0x4000] != es[0] && forall i | 0 <= i < |es| :: |es[i]| == 4
    ensures SizesOk(4, 0x8000) && RingOk(4, 0x8000, Flushed(w))
    ensures var o := RunAll(4, 0x8000, Flushed(w), Writes(es)); o.accepted == es && Ahead(4, 0x8000, o.ring) != es
  {
    LargestSizes();
    hide RingOk, Ahead, RunAll;
    Overfill(4, 0x8000, w, es);
  }

  class Buffer {
    const d: nat
    const n: nat
    const buf: array<Byte>
    var wptr: nat
    var rptr: nat
    var count: nat
    /** Where the main program is in buf_read. */
    var phase: Phase

    ghost function View(): Ring
      reads this, buf
    {
      Ring(buf[..], wptr, rptr, count, phase)
    }

    ghost predicate Valid()
      reads this, buf
    {
      RingOk(d, n, View())
    }

    /** What reads give if nothing more is written. */
    ghost function Contents(): seq<Element>
      reads this, buf
    {
      Ahead(d, n, View())
    }

    /** buf_set with the logarithms of the two sizes, and then buf_flush. */
    constructor (logsize: nat, logdsize: nat)
      requires logsize <= 15 && logdsize <= 16
      ensures Valid() && n == Pow2(logsize) && d == Pow2(logdsize) && Contents() == [] && phase == Idle && fresh(buf)
    {
      d, n, wptr, rptr, count, phase := Pow2(logdsize), Pow2(logsize), 0, 0, 0, Idle;
      buf := new Byte[Pow2(logsize) * Pow2(logdsize)](_ => 0);
      new;
      FlushedOk(d, n, buf[..]);
    }

    /** buf_flush, with no read in progress: an empty buffer. */
    method Flush()
      requires SizesOk(d, n) && buf.Length == Bytes(d, n) && phase == Idle
      modifies this`wptr, this`rptr, this`count
      ensures Valid() && Contents() == [] && phase == Idle
    {
      hide SizesOk, Bytes, RingOk;
      FlushedOk(d, n, buf[..]);
      rptr, wptr, count := 0, 0, 0;
    }

    /** The bytes of e, from the write pointer on. */
    method Store(e: Element)
      requires wptr + |e| <= buf.Length
      modifies buf
      ensures buf[..] == Placed(old(buf[..]), wptr, e)
    {
      ghost var w := buf[..];
      for i := 0 to |e|
        invariant forall x | 0 <= x < buf.Length :: buf[x] == if wptr <= x < wptr + i then e[x - wptr] else w[x]
      {
        buf[wptr + i] := e[i];
      }
    }

    /** buf_write, from an interrupt, at any point of a read. */
    method Write(e: Element) returns (ok: bool)
      requires Valid() && |e| == d
      modifies this`wptr, this`count, buf
      ensures Valid() && d > 0 && buf.Length > 0 && ok == (old(count) <= n)
      ensures (View(), ok) == WriteTo(d, n, old(View()), e)
      ensures !ok ==> View() == old(View())
      ensures ok ==> (Contents() == old(Contents()) + [e] <==> old(LosesNothing(d, n, View(), e)))
    {
      InBuffer(d, n, View());
      assert d > 0;
      hide RingOk, LosesNothing, Ahead, Placed, NextPtr;
      WriteKeeps(d, n, View(), e);
      if count > n {
        return false;
      }
      WriteExact(d, n, View(), e);
      ghost var r, r' := View(), WriteTo(d, n, View(), e).0;
      hide Total, Contents;
      Store(e);
      wptr := Increment(wptr);
      count := count + 1;
      ok := true;
      assert View() == r';
    }

    /** BUF_MOD_INCR: the result is cut to 16 bits. */
    method Increment(p: nat) returns (p': nat)
      requires buf.Length > 0
      ensures p' == NextPtr(d, buf.Length, p)
    {
      p' := (p + d) % buf.Length;
      p' := p' % 0x1_0000;
    }

    /** The next step of buf_read: the test for data, a byte, the count, the pointer. */
    method Step() returns (got: seq<Element>)
      requires Valid()
      modifies this`rptr, this`count, this`phase
      ensures Valid() && (View(), got) == MainStep(d, n, old(View()))
      ensures old(Contents()) == got + Contents()
    {
      InBuffer(d, n, View());
      MainConserves(d, n, View());
      got := [];
      match phase
      case Idle =>
        if count != 0 {
          phase := Copying([]);
        }
      case Copying(part) =>
        var part' := part + [buf[rptr + |part|]];
        phase := if |part'| == d then Copied(part') else Copying(part');
      case Copied(whole) =>
        count := count - 1;
        phase := Counted(whole);
      case Counted(whole) =>
        rptr := Increment(rptr);
        phase := Idle;
        got := [whole];
    }

    /**
      Any interleaving of interrupts and steps of reads.  If no accepted write loses something, what is read, and then
      what is left, is what was there and all that was accepted, in order.  For buffers of at most 65536 bytes it is
      enough that each write finds fewer elements counted than the buffer's size.
     */
    method Interleave(events: seq<Event>) returns (got: seq<Element>, accepted: seq<Element>)
      requires Valid() && EventsOk(d, events)
      modifies this`wptr, this`rptr, this`count, this`phase, buf
      ensures Valid()
      ensures var o := RunAll(d, n, old(View()), events);
              && View() == o.ring && got == o.got && accepted == o.accepted
              && (o.checked && buf.Length <= 0x1_0000 ==> o.lossless)
              && (o.lossless ==> got + Contents() == old(Contents()) + accepted)
    {
      hide RingOk, Ahead, MainStep, WriteTo, LosesNothing, RunAll;
      got, accepted := [], [];
      ghost var r := View();
      assert events[..0] == [];
      RunNone(d, n, r);
      for i := 0 to |events|
        invariant Valid()
        invariant var o := RunAll(d, n, r, events[..i]); View() == o.ring && got == o.got && accepted == o.accepted
      {
        RunOneMore(d, n, r, events, i);
        match events[i] {
          case Interrupt(e) =>
            var ok := Write(e);
            if ok { accepted := accepted + [e]; }
          case Main =>
            var new_ := Step();
            got := got + new_;
        }
      }
      assert events[..|events|] == events;
      RunDelivers(d, n, r, events);
      BufferSize(d, n, r);
      if buf.Length <= 0x1_0000 { CheckedRun(d, n, r, events); }
    }
  }

  lemma RunNone(d: nat, n: nat, r: Ring)
    requires RingOk(d, n, r)
    ensures RunAll(d, n, r, []) == Outcome(r, [], [], true, true)
  {
  }

  lemma RunOneMore(d: nat, n: nat, r: Ring, events: seq<Event>, i: nat)
    requires RingOk(d, n, r) && EventsOk(d, events) && i < |events|
    ensures RunAll(d, n, r, events[..i + 1]) == Next(d, n, RunAll(d, n, r, events[..i]), events[i])
  {
    hide RingOk, Next;
    assert events[..i + 1][..i] == events[..i];
  }

  lemma BufferSize(d: nat, n: nat, r: Ring)
    requires RingOk(d, n, r)
    ensures |r.w| == Bytes(d, n)
  {
  }
}
