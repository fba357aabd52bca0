/** The in-memory transport of the remote file server: requests are put together byte by byte in one buffer. */
module RfsFramer {
  import opened Octets
  import opened Rpc

  datatype ReadState = ReadLength | ReadRequest | RequestDone

  datatype Framing = Framing(state: ReadState, readLen: nat, expected: int, flag: bool, buf: seq<Byte>)

  /** The buffer as the packet parser sees it. */
  function MemoryOf(buf: seq<Byte>): Memory { (i: nat) => if i < |buf| then buf[i] else 0 }

  /** rfs_mem_start_request. */
  function Start(buf: seq<Byte>): Framing { Framing(ReadLength, 0, 0, false, buf) }

  /** Where the next byte goes. */
  function Slot(f: Framing): nat { if f.state == ReadRequest then START_OFFSET + f.readLen else f.readLen }

  predicate HasRoom(f: Framing) { f.state == RequestDone || Slot(f) < |f.buf| }

  /** rfs_mem_read_request_packet. */
  function Feed(f: Framing, c: Byte): Framing
    requires HasRoom(f)
  {
    match f.state
    case ReadLength =>
      var buf := f.buf[f.readLen := c];
      if f.readLen + 1 == START_OFFSET then
        var (ok, size) := GetPacketSizeSpec(MemoryOf(buf));
        if !ok then Framing(RequestDone, 0, f.expected, f.flag, buf)
        else Framing(ReadRequest, 0, size - START_OFFSET, f.flag, buf)
      else f.(readLen := f.readLen + 1, buf := buf)
    case ReadRequest =>
      var buf := f.buf[START_OFFSET + f.readLen := c];
      if f.readLen + 1 == f.expected then Framing(RequestDone, f.readLen + 1, f.expected, true, buf)
      else f.(readLen := f.readLen + 1, buf := buf)
    case RequestDone => f
  }

  function Size16(a: Byte, b: Byte): nat { a + b * 0x100 }

  lemma HeaderOf(buf: seq<Byte>)
    requires |buf| >= START_OFFSET
    ensures GetPacketSizeSpec(MemoryOf(buf)) == (buf[0] == TYPE_PKT_SIZE &&
        buf[1] == TYPE_INT_16, Size16(buf[2], buf[3]))
  {
  }

  /** w is a packet whose header gives its own length. */
  ghost predicate WellFormed(w: seq<Byte>) {
    |w| > START_OFFSET && w[0] == TYPE_PKT_SIZE && w[1] == TYPE_INT_16 && Size16(w[2], w[3]) == |w|
  }

  lemma SizeBytes(n: nat)
    requires n < 0x1_0000
    ensures var h := [TYPE_PKT_SIZE] + U16Bytes(n);
            |h| == 4 && h[0] == TYPE_PKT_SIZE && h[1] == TYPE_INT_16 && Size16(h[2], h[3]) == n
  {
  }

  lemma BodyNotEmpty(fs: seq<Field>)
    ensures |Body(fs)| > 0
  {
  }

  lemma HeadOf(h: seq<Byte>, rest: seq<Byte>)
    requires |h| == 4
    ensures var w := h + rest; |w| == 4 + |rest| && w[0] == h[0] && w[1] == h[1] && w[2] == h[2] && w[3] == h[3]
  {
  }

  /** What eluarpc_gen_write makes is well formed. */
  lemma PacketsAreWellFormed(fs: seq<Field>)
    requires PacketSize(fs) < 0x1_0000
    ensures WellFormed(Packet(fs))
  {
    hide FieldsBytes, U32Bytes, U16Bytes, Size16, StartBytes, EndBytes;
    var n := PacketSize(fs);
    var h := [TYPE_PKT_SIZE] + U16Bytes(n);
    assert n % 0x1_0000 == n && Packet(fs) == h + Body(fs);
    SizeBytes(n);
    BodyNotEmpty(fs);
    hide Body;
    HeadOf(h, Body(fs));
  }

  /** The state when the first k bytes of w have come in. */
  ghost function Partial(buf: seq<Byte>, w: seq<Byte>, k: nat): Framing
    requires k <= |w| <= |buf| && |w| > START_OFFSET
  {
    var b := w[..k] + buf[k..];
    if k < START_OFFSET then Framing(ReadLength, k, 0, false, b)
    else if k < |w| then Framing(ReadRequest, k - START_OFFSET, |w| - START_OFFSET, false, b)
    else Framing(RequestDone, |w| - START_OFFSET, |w| - START_OFFSET, true, b)
  }

  /** One byte more of a well-formed packet. */
  lemma FeedPartial(buf: seq<Byte>, w: seq<Byte>, k: nat)
    requires WellFormed(w) && k < |w| <= |buf|
    ensures HasRoom(Partial(buf, w, k)) && Feed(Partial(buf, w, k), w[k]) == Partial(buf, w, k + 1)
  {
    var b := w[..k] + buf[k..];
    assert b[k := w[k]] == w[..k + 1] + buf[k + 1..];
  }

  /** What a run of bytes leads to; a byte that finds no room is stored past the end of the buffer. */
  datatype Outcome = InBounds(f: Framing) | Overrun

  function FeedAll(f: Framing, bytes: seq<Byte>): Outcome
    decreases |bytes|
  {
    if bytes == [] then InBounds(f)
    else if !HasRoom(f) then Overrun
    else FeedAll(Feed(f, bytes[0]), bytes[1..])
  }

  lemma {:induction false} FeedAppend(f: Framing, a: seq<Byte>, b: seq<Byte>)
    ensures FeedAll(f, a + b) == match FeedAll(f, a) case InBounds(g) => FeedAll(g, b) case Overrun => Overrun
    decreases |a|
  {
    if a == [] {
      assert a + b == b;
    } else if HasRoom(f) {
      hide Feed;
      assert (a + b)[1..] == a[1..] + b;
      FeedAppend(Feed(f, a[0]), a[1..], b);
    }
  }

  lemma FeedOne(f: Framing, c: Byte)
    ensures FeedAll(f, [c]) == if HasRoom(f) then InBounds(Feed(f, c)) else Overrun
  {
    hide Feed;
  }

  /**
    A well-formed packet, from a fresh start: after each of its bytes the buffer holds what has come in so far in
    front of what it held before, and the response flag is up exactly when the last byte has come in.
   */
  lemma {:induction false} Reassembled(buf: seq<Byte>, w: seq<Byte>, k: nat)
    requires WellFormed(w) && k <= |w| <= |buf|
    ensures FeedAll(Start(buf), w[..k]) == InBounds(Partial(buf, w, k))
    ensures Partial(buf, w, k).flag <==> k == |w|
    ensures Partial(buf, w, |w|).buf[..|w|] == w
  {
    assert w[..0] + buf[0..] == buf;
    if k > 0 {
      Reassembled(buf, w, k - 1);
      FeedPartial(buf, w, k - 1);
      hide Feed, WellFormed;
      FeedAppend(Start(buf), w[..k - 1], [w[k - 1]]);
      FeedOne(Partial(buf, w, k - 1), w[k - 1]);
      assert w[..k] == w[..k - 1] + [w[k - 1]];
    }
  }

  /* ---- Headers ---- */

  predicate TagsRight(h: seq<Byte>)
    requires |h| == START_OFFSET
  {
    h[0] == TYPE_PKT_SIZE && h[1] == TYPE_INT_16
  }

  /** A header that announces a packet with contents, which a buffer of n bytes can hold. */
  predicate GoodHeader(h: seq<Byte>, n: nat)
    requires |h| == START_OFFSET
  {
    TagsRight(h) && START_OFFSET < Size16(h[2], h[3]) <= n
  }

  lemma GoodHeaderIs(h: seq<Byte>, n: nat)
    requires |h| == 4
    ensures GoodHeader(h, n) <==> h[0] == 0xA5 && h[1] == 2 && 4 < h[2] + 256 * h[3] <= n
  {
  }

  /** The state when a header is complete. */
  function AfterHeader(buf: seq<Byte>, h: seq<Byte>): Framing
    requires |h| == START_OFFSET <= |buf|
  {
    var b := h + buf[START_OFFSET..];
    if TagsRight(h) then Framing(ReadRequest, 0, Size16(h[2], h[3]) - START_OFFSET, false, b)
    else Framing(RequestDone, 0, 0, false, b)
  }

  lemma HeaderRead(buf: seq<Byte>, h: seq<Byte>)
    requires |h| == START_OFFSET <= |buf|
    ensures FeedAll(Start(buf), h) == InBounds(AfterHeader(buf, h))
  {
    var b1 := buf[0 := h[0]];
    var b2 := b1[1 := h[1]];
    var b3 := b2[2 := h[2]];
    var b4 := b3[3 := h[3]];
    assert b4 == h + buf[START_OFFSET..];
    HeaderOf(b4);
    var f0, f1 := Start(buf), Framing(ReadLength, 1, 0, false, b1);
    var f2, f3 := Framing(ReadLength, 2, 0, false, b2), Framing(ReadLength, 3, 0, false, b3);
    var f4 := AfterHeader(buf, h);
    assert Feed(f0, h[0]) == f1 && Feed(f1, h[1]) == f2 && Feed(f2, h[2]) == f3 && Feed(f3, h[3]) == f4;
    hide Feed;
    FeedOne(f0, h[0]);
    FeedOne(f1, h[1]);
    FeedOne(f2, h[2]);
    FeedOne(f3, h[3]);
    FeedAppend(f0, [h[0]], [h[1]]);
    FeedAppend(f0, [h[0]] + [h[1]], [h[2]]);
    FeedAppend(f0, [h[0]] + [h[1]] + [h[2]], [h[3]]);
    assert h == [h[0]] + [h[1]] + [h[2]] + [h[3]];
  }

  lemma {:induction false} Dropped(f: Framing, rest: seq<Byte>)
    requires f.state == RequestDone
    ensures FeedAll(f, rest) == InBounds(f)
    decreases |rest|
  {
    if rest != [] { Dropped(f, rest[1..]); }
  }

  /** A header with a wrong tag stops the framer: it drops every byte until it is started again, and raises no flag. */
  lemma BadHeader(buf: seq<Byte>, h: seq<Byte>, rest: seq<Byte>)
    requires |h| == START_OFFSET <= |buf| && !TagsRight(h)
    ensures FeedAll(Start(buf), h + rest) == InBounds(Framing(RequestDone, 0, 0, false, h + buf[START_OFFSET..]))
  {
    HeaderRead(buf, h);
    FeedAppend(Start(buf), h, rest);
    Dropped(AfterHeader(buf, h), rest);
  }

  /** A state that stores bytes one after the other and never comes to its end. */
  ghost predicate Endless(f: Framing) {
    f.state == ReadRequest && !f.flag && START_OFFSET + f.readLen <= |f.buf|
    && (f.expected <= f.readLen || |f.buf| < START_OFFSET + f.expected)
  }

  lemma {:induction false} EndlessGoesOn(f: Framing, rest: seq<Byte>)
    requires Endless(f)
    ensures START_OFFSET + f.readLen + |rest| > |f.buf| ==> FeedAll(f, rest) == Overrun
    ensures START_OFFSET + f.readLen + |rest| <= |f.buf| ==>
      FeedAll(f, rest).InBounds? && var g := FeedAll(f, rest).f; Endless(g) && g.readLen == f.readLen + |rest|
    decreases |rest|
  {
    if rest != [] && HasRoom(f) {
      EndlessGoesOn(Feed(f, rest[0]), rest[1..]);
    }
  }

  /**
    A header with the right tags but a size of at most 4, or beyond the buffer: every byte is stored, the flag never
    rises, and once the buffer is full the next byte is stored past its end.
   */
  lemma BadSize(buf: seq<Byte>, h: seq<Byte>, rest: seq<Byte>)
    requires |h| == START_OFFSET <= |buf| && TagsRight(h) && !GoodHeader(h, |buf|)
    ensures |h + rest| > |buf| ==> FeedAll(Start(buf), h + rest) == Overrun
    ensures |h + rest| <= |buf| ==>
      var o := FeedAll(Start(buf), h + rest);
      o.InBounds? && o.f.state == ReadRequest && !o.f.flag && o.f.readLen == |rest|
  {
    HeaderRead(buf, h);
    FeedAppend(Start(buf), h, rest);
    EndlessGoesOn(AfterHeader(buf, h), rest);
  }

  /** The bytes w raise the flag, all of them stored in the buffer. */
  ghost predicate Raises(buf: seq<Byte>, w: seq<Byte>) {
    var o := FeedAll(Start(buf), w); o.InBounds? && o.f.flag
  }

  /** Some continuation of the header h raises the flag. */
  ghost predicate CanRaise(buf: seq<Byte>, h: seq<Byte>) {
    exists rest: seq<Byte> :: Raises(buf, h + rest)
  }

  /**
    The flag can rise, without a byte past the buffer, exactly after a good header; then it does so on the last byte
    announced.
   */
  lemma FlagRises(buf: seq<Byte>, h: seq<Byte>)
    requires |h| == START_OFFSET <= |buf|
    ensures CanRaise(buf, h) <==> GoodHeader(h, |buf|)
    ensures forall rest: seq<Byte> | GoodHeader(h, |buf|) && |h + rest| == Size16(h[2], h[3]) :: Raises(buf, h + rest)
  {
    hide FeedAll;
    if GoodHeader(h, |buf|) {
      forall rest: seq<Byte> | |h + rest| == Size16(h[2], h[3]) ensures Raises(buf, h + rest) {
        var w := h + rest;
        assert w[..|w|] == w;
        Reassembled(buf, w, |w|);
      }
      var rest := seq(Size16(h[2], h[3]) - START_OFFSET, _ => 0);
      assert Raises(buf, h + rest);
    } else {
      forall rest: seq<Byte> ensures !Raises(buf, h + rest) {
        if TagsRight(h) { BadSize(buf, h, rest); } else { BadHeader(buf, h, rest); }
      }
    }
  }

  /** A packet that says it has no contents: no byte after it raises the flag, and too many run past the buffer. */
  lemma EmptyPacketHangs(buf: seq<Byte>, rest: seq<Byte>)
    requires |buf| >= START_OFFSET
    ensures var h := [TYPE_PKT_SIZE, TYPE_INT_16, 4, 0];
            !CanRaise(buf, h) && (|rest| > |buf| - START_OFFSET ==> FeedAll(Start(buf), h + rest) == Overrun)
  {
    var h := [TYPE_PKT_SIZE, TYPE_INT_16, 4, 0];
    FlagRises(buf, h);
    BadSize(buf, h, rest);
  }

  /** A packet that says it is longer than the buffer overruns it on the way. */
  lemma LongPacketOverruns(buf: seq<Byte>, rest: seq<Byte>)
    requires START_OFFSET <= |buf| < 0xFFFF && |rest| == 0xFFFF - START_OFFSET
    ensures var h := [TYPE_PKT_SIZE, TYPE_INT_16, 0xFF, 0xFF];
            !CanRaise(buf, h) && FeedAll(Start(buf), h + rest) == Overrun
  {
    var h := [TYPE_PKT_SIZE, TYPE_INT_16, 0xFF, 0xFF];
    FlagRises(buf, h);
    BadSize(buf, h, rest);
  }
}
