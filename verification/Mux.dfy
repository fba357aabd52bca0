/**
  The serial multiplexer: many virtual UARTs over one wire, by service IDs, an escape byte
  and a request to send the last byte again.  The device's and the host's ends are separate
  programs; each is modelled by its own step function.
 */
module Mux {
  import opened Octets

  const SERVICE_ID_FIRST: Byte := 0xD0
  const SERVICE_ID_LAST: Byte := 0xD7
  const ESCAPE_CHAR: Byte := 0xC0
  const FORCE_SID_CHAR: Byte := 0xFF
  const ESC_MASK: nat := 0x100

  /** A byte for a service. */
  datatype Msg = Msg(id: int, data: Byte)

  /** b ^ SERMUX_ESCAPE_XOR_MASK. */
  function Flip(b: Byte): (r: Byte)
    ensures b / 32 % 2 == 1 ==> r == b - 32
    ensures b / 32 % 2 == 0 ==> r == b + 32
  {
    if b / 32 % 2 == 1 then b - 32 else b + 32
  }

  predicate Special(b: Byte) {
    b == ESCAPE_CHAR || b == FORCE_SID_CHAR || SERVICE_ID_FIRST <= b <= SERVICE_ID_LAST
  }

  /** A service ID of a system with n virtual UARTs. */
  predicate IsSid(n: nat, b: int) { SERVICE_ID_FIRST <= b < SERVICE_ID_FIRST + n }

  /** Escaped bytes are plain on the wire, and come back by flipping again. */
  lemma FlipSpecial(b: Byte)
    requires Special(b)
    ensures !Special(Flip(b)) && Flip(Flip(b)) == b
  {
  }

  /* ---- The two ends ---- */

  /**
    One end: the service and the escape state it receives in, the service it sends in, and what it would send again
    (-1: nothing).
   */
  datatype End = End(sidIn: int, esc: bool, sidOut: int, last: int)

  /** The new state, the bytes put on the wire, the bytes delivered to services, and whether the program goes on. */
  datatype Step = Step(end: End, out: seq<Byte>, got: seq<Msg>, ok: bool)

  function EncodeData(data: Byte): seq<Byte> {
    if Special(data) then [ESCAPE_CHAR, Flip(data)] else [data]
  }

  /** What is remembered of a byte that was sent: what went on the wire, marked if it was escaped. */
  function LastOf(data: Byte): nat {
    if Special(data) then ESC_MASK + Flip(data) else data
  }

  /** Sending a byte for a service; both ends do the same. */
  function SendStep(e: End, id: Byte, data: Byte): Step {
    Step(e.(sidOut := id, last := LastOf(data)), (if id != e.sidOut then [id] else []) + EncodeData(data), [], true)
  }

  /**
    What goes on the wire, byte by byte: the service if it changes, then the byte, which is escaped by 0xC0 and with
    bit 5 flipped if it is 0xC0, 0xFF or one of 0xD0 to 0xD7.
   */
  lemma OnWire(e: End, id: Byte, data: Byte)
    ensures var escaped := data == 0xC0 || data == 0xFF || 0xD0 <= data <= 0xD7;
            var flipped := if data % 64 >= 32 then data - 32 else data + 32;
            SendStep(e, id, data).out ==
              (if id == e.sidOut then [] else [id]) + (if escaped then [0xC0, flipped] else [data])
  {
  }

  /**
    When the host's program ends: on a request (0xFF) with nothing to send again, or on a byte after an escape that no
    end escapes: neither 0xC0 nor one of 0xD0 to 0xD7, and whose flipped form is not of that kind, nor 0xFF, either.
   */
  lemma HostEnds(e: End, c: Byte)
    requires EndOk(e)
    ensures var flipped := if c % 64 >= 32 then c - 32 else c + 32;
            !HostRx(e, c).ok <==>
              if c == 0xC0 || 0xD0 <= c <= 0xD7 then false
              else if c == 0xFF then e.last == -1
              else e.esc && !(flipped == 0xC0 || flipped == 0xFF || 0xD0 <= flipped <= 0xD7)
  {
  }

  /** The answer to a request to send again. */
  function Again(e: End): seq<Byte>
    requires 0 <= e.last < 0x200 && 0 <= e.sidOut < 256
  {
    [e.sidOut] + (if e.last >= ESC_MASK then [ESCAPE_CHAR] else []) + [e.last % 256]
  }

  predicate EndOk(e: End) {
    e.last == -1 || (0 <= e.last < 0x200 && 0 <= e.sidOut < 256)
  }

  /** A data byte, once the escape has been undone. */
  function DataStep(e: End, data: Byte): Step {
    if e.sidIn == -1 then Step(e.(esc := false), [FORCE_SID_CHAR], [], true)
    else Step(e.(esc := false), [], [Msg(e.sidIn, data)], true)
  }

  /** cmn_rx_handler.  With nothing to send again, a request is taken for a data byte. */
  function DeviceRx(n: nat, e: End, c: Byte): Step
    requires EndOk(e)
  {
    if c == ESCAPE_CHAR then Step(e.(esc := true), [], [], true)
    else if IsSid(n, c) then Step(e.(sidIn := c), [], [], true)
    else if c == FORCE_SID_CHAR && e.last != -1 then Step(e.(last := -1), Again(e), [], true)
    else DataStep(e, if e.esc then Flip(c) else c)
  }

  /**
    The host's handling of a byte from the wire.  A request with nothing to send again, or an escape of a plain byte,
    ends the program.
   */
  function HostRx(e: End, c: Byte): Step
    requires EndOk(e)
  {
    if c == ESCAPE_CHAR then Step(e.(esc := true), [], [], true)
    else if IsSid(8, c) then Step(e.(sidIn := c), [], [], true)
    else if c == FORCE_SID_CHAR then
      if e.last == -1 then Step(e, [], [], false) else Step(e.(last := -1), Again(e), [], true)
    else if e.esc && !Special(Flip(c)) then Step(e, [], [], false)
    else DataStep(e, if e.esc then Flip(c) else c)
  }

  /** Which program an end runs; a device is built for n services. */
  datatype Side = Device(n: nat) | Host

  function Services(side: Side): nat { match side case Device(n) => n case Host => 8 }

  function Rx(side: Side, e: End, c: Byte): Step
    requires EndOk(e)
  {
    match side
    case Device(n) => DeviceRx(n, e, c)
    case Host => HostRx(e, c)
  }

  /* ---- Runs ---- */

  /** What can happen to an end: a byte of the other end's traffic, a request from it, a byte to send. */
  datatype Event = Wire(c: Byte) | Request | Send(id: Byte, data: Byte)

  function EventStep(side: Side, e: End, ev: Event): Step
    requires EndOk(e)
  {
    match ev
    case Wire(c) => Rx(side, e, c)
    case Request => Rx(side, e, FORCE_SID_CHAR)
    case Send(id, data) => SendStep(e, id, data)
  }

  lemma StepOk(side: Side, e: End, ev: Event)
    requires EndOk(e)
    ensures EndOk(EventStep(side, e, ev).end)
  {
  }

  function Run(side: Side, e: End, tr: seq<Event>): (s: Step)
    requires EndOk(e)
    ensures EndOk(s.end)
    decreases |tr|
  {
    if tr == [] then Step(e, [], [], true)
    else
      var a := EventStep(side, e, tr[0]);
      StepOk(side, e, tr[0]);
      if !a.ok then a
      else
        var b := Run(side, a.end, tr[1..]);
        Step(b.end, a.out + b.out, a.got + b.got, b.ok)
  }

  /** The traffic of the other end in a run. */
  ghost function WireOf(tr: seq<Event>): seq<Byte> {
    if tr == [] then [] else WireByte(tr[0]) + WireOf(tr[1..])
  }

  /** Every request finds something to send again. */
  ghost predicate Answerable(last: int, tr: seq<Event>)
    decreases |tr|
  {
    tr != [] ==>
      match tr[0]
      case Wire(_) => Answerable(last, tr[1..])
      case Request => last != -1 && Answerable(-1, tr[1..])
      case Send(_, data) => Answerable(LastOf(data), tr[1..])
  }

  /** What a message stream looks like on the wire, sent by an end whose current service is sid. */
  function EncodeAll(sid: int, msgs: seq<Msg>): seq<Byte>
    requires forall i | 0 <= i < |msgs| :: 0 <= msgs[i].id < 256
    decreases |msgs|
  {
    if msgs == [] then []
    else (if msgs[0].id != sid then [msgs[0].id] else []) + EncodeData(msgs[0].data) + EncodeAll(msgs[0].id, msgs[1..])
  }

  /* ---- Decoding ---- */

  /** A byte stream without requests, read in service sid and escape state esc. */
  ghost function Decode(n: nat, sid: int, esc: bool, w: seq<Byte>): seq<Msg>
    decreases |w|
  {
    if w == [] then []
    else if w[0] == ESCAPE_CHAR then Decode(n, sid, true, w[1..])
    else if IsSid(n, w[0]) then Decode(n, w[0], esc, w[1..])
    else [Msg(sid, if esc then Flip(w[0]) else w[0])] + Decode(n, sid, false, w[1..])
  }

  /** The stream never needs a request or an error: data has a service, escapes are of special bytes, no raw 0xFF. */
  ghost predicate Clean(n: nat, sid: int, esc: bool, w: seq<Byte>)
    decreases |w|
  {
    w != [] ==>
      if w[0] == ESCAPE_CHAR then Clean(n, sid, true, w[1..])
      else if IsSid(n, w[0]) then Clean(n, w[0], esc, w[1..])
      else w[0] != FORCE_SID_CHAR && sid != -1 && (esc ==> Special(Flip(w[0]))) && Clean(n, sid, false, w[1..])
  }

  ghost function FinalSid(n: nat, sid: int, w: seq<Byte>): int
    decreases |w|
  {
    if w == [] then sid else FinalSid(n, if w[0] != ESCAPE_CHAR && IsSid(n, w[0]) then w[0] else sid, w[1..])
  }

  ghost function WireByte(ev: Event): seq<Byte> { if ev.Wire? then [ev.c] else [] }

  /** One event, as the rest of the traffic sees it. */
  lemma EventDecodes(side: Side, e: End, ev: Event, w: seq<Byte>)
    requires EndOk(e) && Services(side) <= 8 && (ev.Request? ==> e.last != -1)
    requires Clean(Services(side), e.sidIn, e.esc, WireByte(ev) + w)
    ensures var n, a := Services(side), EventStep(side, e, ev);
            && a.ok && Clean(n, a.end.sidIn, a.end.esc, w) && (ev.Wire? ==> a.end.last == e.last)
            && Decode(n, e.sidIn, e.esc, WireByte(ev) + w) == a.got + Decode(n, a.end.sidIn, a.end.esc, w)
            && FinalSid(n, e.sidIn, WireByte(ev) + w) == FinalSid(n, a.end.sidIn, w)
  {
    assert WireByte(ev) == [] ==> WireByte(ev) + w == w;
    assert WireByte(ev) != [] ==> (WireByte(ev) + w)[1..] == w;
  }

  /**
    An end in any run delivers what the other end's traffic alone decodes to: its own sends, and requests it can
    answer, change nothing.
   */
  lemma {:induction false} RunDecodes(side: Side, e: End, tr: seq<Event>)
    requires EndOk(e) && Answerable(e.last, tr) && Clean(Services(side), e.sidIn, e.esc, WireOf(tr)) &&
        Services(side) <= 8
    ensures var r := Run(side, e, tr);
            r.ok && r.got == Decode(Services(side), e.sidIn, e.esc, WireOf(tr)) &&
                r.end.sidIn == FinalSid(Services(side), e.sidIn, WireOf(tr))
    decreases |tr|
  {
    if tr != [] {
      hide Decode, Clean, FinalSid, Rx;
      StepOk(side, e, tr[0]);
      assert WireOf(tr) == WireByte(tr[0]) + WireOf(tr[1..]);
      EventDecodes(side, e, tr[0], WireOf(tr[1..]));
      AnswerableStep(side, e, tr);
      hide EventStep, Answerable;
      RunDecodes(side, EventStep(side, e, tr[0]).end, tr[1..]);
    }
  }

  lemma AnswerableStep(side: Side, e: End, tr: seq<Event>)
    requires tr != [] && EndOk(e) && Answerable(e.last, tr) && Services(side) <= 8
    requires tr[0].Wire? ==> EventStep(side, e, tr[0]).end.last == e.last
    ensures Answerable(EventStep(side, e, tr[0]).end.last, tr[1..])
  {
  }

  ghost predicate MsgsOk(n: nat, msgs: seq<Msg>) {
    n <= 8 && forall i | 0 <= i < |msgs| :: IsSid(n, msgs[i].id)
  }

  /** Reading one encoded byte. */
  lemma DecodeData(n: nat, sid: int, data: Byte, w: seq<Byte>)
    requires n <= 8 && sid != -1
    ensures Decode(n, sid, false, EncodeData(data) + w) == [Msg(sid, data)] + Decode(n, sid, false, w)
    ensures Clean(n, sid, false, EncodeData(data) + w) == Clean(n, sid, false, w)
    ensures FinalSid(n, sid, EncodeData(data) + w) == FinalSid(n, sid, w)
  {
    var all := EncodeData(data) + w;
    if Special(data) {
      FlipSpecial(data);
      assert all[1..] == [Flip(data)] + w && all[1..][1..] == w;
    } else {
      assert all[1..] == w;
    }
  }

  lemma EncodeNone(sid: int)
    ensures EncodeAll(sid, []) == []
  {
  }

  lemma EncodeCons(sid: int, msgs: seq<Msg>)
    requires (forall i | 0 <= i < |msgs| :: 0 <= msgs[i].id < 256) && msgs != []
    ensures EncodeAll(sid, msgs) == (if msgs[0].id != sid then [msgs[0].id] else []) + EncodeData(msgs[0].data) +
        EncodeAll(msgs[0].id, msgs[1..])
  {
  }

  /** The service byte in front of a message. */
  lemma DecodeSid(n: nat, sid: int, id: Byte, w: seq<Byte>)
    requires n <= 8 && IsSid(n, id)
    ensures Decode(n, sid, false, [id] + w) == Decode(n, id, false, w)
    ensures Clean(n, sid, false, [id] + w) == Clean(n, id, false, w)
    ensures FinalSid(n, sid, [id] + w) == FinalSid(n, id, w)
  {
    assert ([id] + w)[1..] == w;
  }

  /** Reading one message. */
  lemma DecodeMsg(n: nat, sid: int, sidIn: int, m: Msg, rest: seq<Byte>)
    requires n <= 8 && IsSid(n, m.id) && (sid == sidIn || !IsSid(n, sid))
    ensures var w := (if m.id != sid then [m.id] else []) + EncodeData(m.data) + rest;
            && Decode(n, sidIn, false, w) == [m] + Decode(n, m.id, false, rest)
            && Clean(n, sidIn, false, w) == Clean(n, m.id, false, rest)
            && FinalSid(n, sidIn, w) == FinalSid(n, m.id, rest)
  {
    hide Decode, Clean, FinalSid, EncodeData;
    var w := (if m.id != sid then [m.id] else []) + EncodeData(m.data) + rest;
    DecodeData(n, m.id, m.data, rest);
    if m.id != sid {
      DecodeSid(n, sidIn, m.id, EncodeData(m.data) + rest);
      assert w == [m.id] + (EncodeData(m.data) + rest);
    } else {
      assert w == EncodeData(m.data) + rest;
    }
  }

  /**
    What was encoded decodes to the same messages, from any state in which both ends agree or the first byte carries
    its service.
   */
  lemma {:induction false} DecodeEncoded(n: nat, sid: int, sidIn: int, msgs: seq<Msg>)
    requires MsgsOk(n, msgs) && (sid == sidIn || !IsSid(n, sid))
    ensures var w := EncodeAll(sid, msgs);
            Decode(n, sidIn, false, w) == msgs && Clean(n, sidIn, false, w)
            && FinalSid(n, sidIn, w) == if msgs == [] then sidIn else msgs[|msgs| - 1].id
    decreases |msgs|
  {
    if msgs != [] {
      hide Decode, Clean, FinalSid, EncodeData, EncodeAll;
      EncodeCons(sid, msgs);
      DecodeEncoded(n, msgs[0].id, msgs[0].id, msgs[1..]);
      DecodeMsg(n, sid, sidIn, msgs[0], EncodeAll(msgs[0].id, msgs[1..]));
      assert msgs == [msgs[0]] + msgs[1..];
    }
  }

  /**
    The multiplexer works: whatever one end sends on any mix of services, the other end delivers the same bytes to the
    same services in the same order, however its own sends and the other's requests fall between the bytes.
   */
  lemma EndToEnd(side: Side, e: End, tr: seq<Event>, sid: int, msgs: seq<Msg>)
    requires EndOk(e) && !e.esc && MsgsOk(Services(side), msgs) && (sid == e.sidIn || !IsSid(Services(side), sid))
    requires WireOf(tr) == EncodeAll(sid, msgs) && Answerable(e.last, tr)
    ensures Run(side, e, tr).ok && Run(side, e, tr).got == msgs
    ensures msgs != [] ==> Run(side, e, tr).end.sidIn == msgs[|msgs| - 1].id
  {
    DecodeEncoded(Services(side), sid, e.sidIn, msgs);
    RunDecodes(side, e, tr);
  }

  /** The bytes an end sends in a run. */
  ghost function SentBy(tr: seq<Event>): (r: seq<Msg>)
    ensures forall i | 0 <= i < |r| :: 0 <= r[i].id < 256
  {
    if tr == [] then [] else SendOf(tr[0]) + SentBy(tr[1..])
  }

  ghost function SendOf(ev: Event): seq<Msg> { if ev.Send? then [Msg(ev.id, ev.data)] else [] }

  /**
    What an end puts on the wire in a run in which it is not asked to send again is the encoding of the bytes it sends,
    whatever arrives between them.
   */
  lemma {:induction false} SendsEncode(side: Side, e: End, tr: seq<Event>)
    requires EndOk(e) && Services(side) <= 8 && Clean(Services(side), e.sidIn, e.esc, WireOf(tr))
    requires forall i | 0 <= i < |tr| :: !tr[i].Request?
    ensures Run(side, e, tr).ok && Run(side, e, tr).out == EncodeAll(e.sidOut, SentBy(tr))
    decreases |tr|
  {
    if tr != [] {
      hide Decode, Clean, FinalSid, Rx, EncodeData, LastOf, EncodeAll;
      var ev, rest := tr[0], tr[1..];
      StepOk(side, e, ev);
      assert WireOf(tr) == WireByte(ev) + WireOf(rest);
      EventDecodes(side, e, ev, WireOf(rest));
      if ev.Wire? { QuietWire(side, e, ev, WireOf(rest)); }
      var a := EventStep(side, e, ev);
      SendsEncode(side, a.end, rest);
      if ev.Send? {
        var all := SentBy(tr);
        assert all == [Msg(ev.id, ev.data)] + SentBy(rest) && all[1..] == SentBy(rest);
        EncodeCons(e.sidOut, all);
        assert a.end.sidOut == ev.id;
      } else {
        assert SentBy(tr) == SentBy(rest);
      }
    } else {
      EncodeNone(e.sidOut);
    }
  }

  /** Clean traffic is read without a word. */
  lemma QuietWire(side: Side, e: End, ev: Event, w: seq<Byte>)
    requires EndOk(e) && Services(side) <= 8 && ev.Wire? && Clean(Services(side), e.sidIn, e.esc, WireByte(ev) + w)
    ensures var a := EventStep(side, e, ev); a.out == [] && a.end.sidOut == e.sidOut
  {
  }

  /* ---- Two ends and the wires between them ---- */

  ghost function FinalEsc(n: nat, esc: bool, w: seq<Byte>): bool
    decreases |w|
  {
    if w == [] then esc
    else FinalEsc(n, if w[0] == ESCAPE_CHAR then true else if IsSid(n, w[0]) then esc else false, w[1..])
  }

  /** Reading goes on where it stopped. */
  lemma {:induction false} DecodeAppend(n: nat, sid: int, esc: bool, w: seq<Byte>, x: seq<Byte>)
    ensures var sid', esc' := FinalSid(n, sid, w), FinalEsc(n, esc, w);
            && Decode(n, sid, esc, w + x) == Decode(n, sid, esc, w) + Decode(n, sid', esc', x)
            && (Clean(n, sid, esc, w + x) <==> Clean(n, sid, esc, w) && Clean(n, sid', esc', x))
            && FinalSid(n, sid, w + x) == FinalSid(n, sid', x) && FinalEsc(n, esc, w + x) == FinalEsc(n, esc', x)
    decreases |w|
  {
    if w == [] {
      assert w + x == x;
    } else {
      assert (w + x)[1..] == w[1..] + x;
      var sid1 := if w[0] != ESCAPE_CHAR && IsSid(n, w[0]) then w[0] else sid;
      var esc1 := if w[0] == ESCAPE_CHAR then true else if IsSid(n, w[0]) then esc else false;
      DecodeAppend(n, sid1, esc1, w[1..], x);
    }
  }

  /**
    A channel: what one end has sent, what the other has delivered of it, and the bytes on the way.  The receiver will
    deliver what is still missing when it reads those, without any request or error.
   */
  ghost predicate ChannelOk(n: nat, sender: End, receiver: End, wire: seq<Byte>, sent: seq<Msg>, got: seq<Msg>) {
    && Clean(n, receiver.sidIn, receiver.esc, wire)
    && sent == got + Decode(n, receiver.sidIn, receiver.esc, wire)
    && FinalSid(n, receiver.sidIn, wire) == sender.sidOut && !FinalEsc(n, receiver.esc, wire)
  }

  /** Sending keeps the channel. */
  lemma ChannelSend(n: nat, sender: End, receiver: End, wire: seq<Byte>, sent: seq<Msg>, got: seq<Msg>, id: Byte,
      data: Byte)
    requires ChannelOk(n, sender, receiver, wire, sent, got) && n <= 8 && IsSid(n, id)
    ensures var s := SendStep(sender, id, data);
            ChannelOk(n, s.end, receiver, wire + s.out, sent + [Msg(id, data)], got)
  {
    hide Decode, Clean, FinalSid, FinalEsc, EncodeData, LastOf;
    var x := SendStep(sender, id, data).out;
    DecodeAppend(n, receiver.sidIn, receiver.esc, wire, x);
    SentDecodes(n, sender.sidOut, id, data);
    assert sent + [Msg(id, data)] == got + (Decode(n, receiver.sidIn, receiver.esc, wire) + [Msg(id, data)]);
  }

  /** One sent byte, as the receiver reads it. */
  lemma SentDecodes(n: nat, sid: int, id: Byte, data: Byte)
    requires n <= 8 && IsSid(n, id)
    ensures var x := (if id != sid then [id] else []) + EncodeData(data);
            && Decode(n, sid, false, x) == [Msg(id, data)] && Clean(n, sid, false, x)
            && FinalSid(n, sid, x) == id && !FinalEsc(n, false, x)
  {
    hide EncodeData;
    DecodeData(n, id, data, []);
    DecodeSid(n, sid, id, EncodeData(data));
    assert EncodeData(data) + [] == EncodeData(data);
    var x := (if id != sid then [id] else []) + EncodeData(data);
    assert id == sid ==> x == EncodeData(data);
    assert id != sid ==> x == [id] + EncodeData(data) && x[1..] == EncodeData(data);
    EscapeEnds(n, data);
  }

  lemma EscapeEnds(n: nat, data: Byte)
    requires n <= 8
    ensures !FinalEsc(n, false, EncodeData(data))
  {
    if Special(data) {
      FlipSpecial(data);
      assert EncodeData(data)[1..] == [Flip(data)] && [Flip(data)][1..] == [];
      assert !FinalEsc(n, true, [Flip(data)]);
    } else {
      assert EncodeData(data)[1..] == [];
    }
  }

  lemma ReadNext(side: Side, e: End, w: seq<Byte>)
    requires EndOk(e) && Services(side) <= 8 && w != [] && Clean(Services(side), e.sidIn, e.esc, w)
    ensures var n, s := Services(side), Rx(side, e, w[0]);
            && s.ok && s.out == [] && s.end.sidOut == e.sidOut && EndOk(s.end)
            && Clean(n, s.end.sidIn, s.end.esc, w[1..])
            && Decode(n, e.sidIn, e.esc, w) == s.got + Decode(n, s.end.sidIn, s.end.esc, w[1..])
            && FinalSid(n, e.sidIn, w) == FinalSid(n, s.end.sidIn, w[1..])
            && FinalEsc(n, e.esc, w) == FinalEsc(n, s.end.esc, w[1..])
  {
  }

  /** Reading the next byte keeps the channel; it asks for nothing and sends nothing. */
  lemma ChannelReceive(side: Side, sender: End, receiver: End, wire: seq<Byte>, sent: seq<Msg>, got: seq<Msg>)
    requires ChannelOk(Services(side), sender, receiver, wire, sent, got) && wire != [] && EndOk(receiver) &&
        Services(side) <= 8
    ensures var s := Rx(side, receiver, wire[0]);
            && s.ok && s.out == [] && s.end.sidOut == receiver.sidOut && EndOk(s.end)
            && ChannelOk(Services(side), sender, s.end, wire[1..], sent, got + s.got)
  {
    hide Decode, Clean, FinalSid, FinalEsc, Rx;
    var n, s := Services(side), Rx(side, receiver, wire[0]);
    ReadNext(side, receiver, wire);
    var rest := Decode(n, s.end.sidIn, s.end.esc, wire[1..]);
    assert got + (s.got + rest) == got + s.got + rest;
  }

  /** Who does something: a device or the host sends a byte, or reads the next byte that has arrived. */
  datatype Act = DeviceSends(id: Byte, data: Byte) | HostSends(id: Byte, data: Byte) | DeviceReads | HostReads

  /** Both ends, the bytes on the way to each of them, and what each has sent and delivered. */
  datatype System = System(device: End, host: End, toHost: seq<Byte>, toDevice: seq<Byte>,
                           deviceSent: seq<Msg>, hostSent: seq<Msg>, deviceGot: seq<Msg>, hostGot: seq<Msg>, ok: bool)

  const RESET: End := End(-1, false, -1, -1)
  const START: System := System(RESET, RESET, [], [], [], [], [], [], true)

  function ActStep(n: nat, s: System, a: Act): System
    requires EndOk(s.device) && EndOk(s.host)
  {
    match a
    case DeviceSends(id, data) =>
      if !IsSid(n, id) then s
      else
        var x := SendStep(s.device, id, data);
        s.(device := x.end, toHost := s.toHost + x.out, deviceSent := s.deviceSent + [Msg(id, data)])
    case HostSends(id, data) =>
      if !IsSid(n, id) then s
      else
        var x := SendStep(s.host, id, data);
        s.(host := x.end, toDevice := s.toDevice + x.out, hostSent := s.hostSent + [Msg(id, data)])
    case DeviceReads =>
      if s.toDevice == [] then s
      else
        var x := DeviceRx(n, s.device, s.toDevice[0]);
        s.(device := x.end, toHost := s.toHost + x.out, toDevice := s.toDevice[1..], deviceGot := s.deviceGot + x.got,
            ok := s.ok && x.ok)
    case HostReads =>
      if s.toHost == [] then s
      else
        var x := HostRx(s.host, s.toHost[0]);
        s.(host := x.end, toDevice := s.toDevice + x.out, toHost := s.toHost[1..], hostGot := s.hostGot + x.got,
            ok := s.ok && x.ok)
  }

  ghost predicate SystemOk(n: nat, s: System) {
    && n <= 8 && EndOk(s.device) && EndOk(s.host) && s.ok
    && ChannelOk(8, s.device, s.host, s.toHost, s.deviceSent, s.hostGot)
    && ChannelOk(n, s.host, s.device, s.toDevice, s.hostSent, s.deviceGot)
  }

  lemma ChannelSame(n: nat, a: End, b: End, a': End, b': End, wire: seq<Byte>, sent: seq<Msg>, got: seq<Msg>)
    requires ChannelOk(n, a, b, wire, sent, got) && a'.sidOut == a.sidOut && b'.sidIn == b.sidIn && b'.esc == b.esc
    ensures ChannelOk(n, a', b', wire, sent, got)
  {
  }

  lemma ActKeeps(n: nat, s: System, a: Act)
    requires SystemOk(n, s)
    ensures SystemOk(n, ActStep(n, s, a))
  {
    hide ChannelOk, Decode, Clean, EncodeData, LastOf, Again;
    var s' := ActStep(n, s, a);
    match a
    case DeviceSends(id, data) =>
      if IsSid(n, id) {
        ChannelSend(8, s.device, s.host, s.toHost, s.deviceSent, s.hostGot, id, data);
        ChannelSame(n, s.host, s.device, s.host, s'.device, s.toDevice, s.hostSent, s.deviceGot);
        SentOk(s.device, id, data);
      }
    case HostSends(id, data) =>
      if IsSid(n, id) {
        ChannelSend(n, s.host, s.device, s.toDevice, s.hostSent, s.deviceGot, id, data);
        ChannelSame(8, s.device, s.host, s.device, s'.host, s.toHost, s.deviceSent, s.hostGot);
        SentOk(s.host, id, data);
      }
    case DeviceReads =>
      if s.toDevice != [] {
        ChannelReceive(Device(n), s.host, s.device, s.toDevice, s.hostSent, s.deviceGot);
        hide DeviceRx;
        ChannelSame(8, s.device, s.host, s'.device, s.host, s.toHost, s.deviceSent, s.hostGot);
        assert s.toHost + [] == s.toHost;
      }
    case HostReads =>
      if s.toHost != [] {
        ChannelReceive(Host, s.device, s.host, s.toHost, s.deviceSent, s.hostGot);
        hide HostRx;
        ChannelSame(n, s.host, s.device, s'.host, s.device, s.toDevice, s.hostSent, s.deviceGot);
        assert s.toDevice + [] == s.toDevice;
      }
  }

  lemma SentOk(e: End, id: Byte, data: Byte)
    ensures EndOk(SendStep(e, id, data).end)
  {
  }

  /** A schedule, act by act. */
  ghost predicate Reaches(n: nat, s: System, acts: seq<Act>, s': System)
    decreases |acts|
  {
    if acts == [] then s' == s
    else EndOk(s.device) && EndOk(s.host) && Reaches(n, ActStep(n, s, acts[0]), acts[1..], s')
  }

  lemma {:induction false} ReachesOk(n: nat, s: System, acts: seq<Act>, s': System)
    requires SystemOk(n, s) && Reaches(n, s, acts, s')
    ensures SystemOk(n, s')
    decreases |acts|
  {
    if acts != [] {
      ActKeeps(n, s, acts[0]);
      ReachesOk(n, ActStep(n, s, acts[0]), acts[1..], s');
    }
  }

  /** No byte on the wire is a request to send again. */
  lemma {:induction false} NoRequests(n: nat, sid: int, esc: bool, w: seq<Byte>)
    requires n <= 8 && Clean(n, sid, esc, w)
    ensures FORCE_SID_CHAR !in w
    decreases |w|
  {
    if w != [] {
      var sid1 := if w[0] != ESCAPE_CHAR && IsSid(n, w[0]) then w[0] else sid;
      var esc1 := if w[0] == ESCAPE_CHAR then true else if IsSid(n, w[0]) then esc else false;
      NoRequests(n, sid1, esc1, w[1..]);
      assert w == [w[0]] + w[1..];
    }
  }

  /**
    The multiplexer works, end to end.  From reset, under every schedule of sends and reads at both ends, each end has
    delivered a prefix of what the other has sent, and all of it once nothing is on the way; no protocol error occurs,
    and neither end ever asks the other to send again.
   */
  lemma TwoEnds(n: nat, acts: seq<Act>, s: System)
    requires n <= 8 && Reaches(n, START, acts, s)
    ensures s.ok && s.hostGot <= s.deviceSent && s.deviceGot <= s.hostSent
    ensures s.toHost == [] ==> s.hostGot == s.deviceSent
    ensures s.toDevice == [] ==> s.deviceGot == s.hostSent
    ensures FORCE_SID_CHAR !in s.toHost && FORCE_SID_CHAR !in s.toDevice
  {
    ReachesOk(n, START, acts, s);
    NoRequests(8, s.host.sidIn, s.host.esc, s.toHost);
    NoRequests(n, s.device.sidIn, s.device.esc, s.toDevice);
  }

  /* ---- Requests that cannot be answered ---- */

  /** The request was answered: service and last byte are sent again, and will not be a second time. */
  ghost predicate Answered(e: End, s: Step) {
    s.ok && |s.out| >= 2 && s.out[0] == e.sidOut && s.end == e.(last := -1)
  }

  /** Reception is as it was, and no service got anything. */
  ghost predicate Undisturbed(e: End, s: Step) {
    s.ok && s.got == [] && s.end.esc == e.esc && s.end.sidIn == e.sidIn
  }

  /**
    A request is answered exactly when there is something to send again.  Reception is undisturbed exactly then, or at
    a device that waits for a service and has seen no escape: it takes 0xFF for a data byte, but has nobody to give it
    to, and asks back.  Without anything to send again the host gives up; a device that waits for a service asks back
    and forgets an escape; and a device in a service delivers 0xFF, or 0xDF after an escape.
   */
  lemma RequestHarmless(side: Side, e: End)
    requires EndOk(e) && Services(side) <= 8
    ensures var s := Rx(side, e, FORCE_SID_CHAR);
            && (Answered(e, s) <==> e.last != -1)
            && (Undisturbed(e, s) <==> e.last != -1 || (side.Device? && e.sidIn == -1 && !e.esc))
            && (e.last == -1 && side.Host? ==> !s.ok)
            && (e.last == -1 && side.Device? && e.sidIn == -1 ==>
                s == Step(e.(esc := false), [FORCE_SID_CHAR], [], true))
            && (e.last == -1 && side.Device? && e.sidIn != -1 ==>
                  s == Step(e.(esc := false), [], [Msg(e.sidIn, if e.esc then 0xDF else 0xFF)], true))
  {
    if e.last != -1 { assert |Again(e)| >= 2; }
  }

  /* ---- Losing and finding synchronisation ---- */

  /** The events of a stretch of traffic. */
  ghost function Bytes(w: seq<Byte>): (tr: seq<Event>)
    ensures |tr| == |w| && forall i | 0 <= i < |w| :: tr[i] == Wire(w[i])
  {
    seq(|w|, i requires 0 <= i < |w| => Wire(w[i]))
  }

  lemma {:induction false} BytesWire(w: seq<Byte>)
    ensures WireOf(Bytes(w)) == w
  {
    if w != [] {
      assert Bytes(w)[1..] == Bytes(w[1..]);
      BytesWire(w[1..]);
    }
  }

  lemma {:induction false} BytesAnswerable(last: int, w: seq<Byte>)
    ensures Answerable(last, Bytes(w))
  {
    if w != [] {
      assert Bytes(w)[1..] == Bytes(w[1..]);
      BytesAnswerable(last, w[1..]);
    }
  }

  /** An end that has lost its service and escape state. */
  function Lost(e: End): End { e.(sidIn := -1, esc := false) }

  /** A run, one event at a time. */
  lemma Unroll(side: Side, e: End, ev: Event, rest: seq<Event>)
    requires EndOk(e)
    ensures var a := EventStep(side, e, ev);
            && EndOk(a.end)
            && (a.ok ==> var b := Run(side, a.end, rest);
                Run(side, e, [ev] + rest) == Step(b.end, a.out + b.out, a.got + b.got, b.ok))
            && (!a.ok ==> Run(side, e, [ev] + rest) == a)
  {
    StepOk(side, e, ev);
    assert ([ev] + rest)[1..] == rest;
  }

  /** Plain bytes, or an escape and a plain byte, read without a service: one request, nothing delivered. */
  lemma LostAsks(side: Side, e: End, data: Byte, k: nat)
    requires EndOk(e) && Services(side) <= 8 && k < |EncodeData(data)|
    ensures var r := Run(side, Lost(e), Bytes(EncodeData(data)[k..]));
            r.ok && r.got == [] && r.out == [FORCE_SID_CHAR] && r.end == Lost(e)
  {
    var w := EncodeData(data)[k..];
    if Special(data) { FlipSpecial(data); }
    if |w| == 2 {
      assert Bytes(w) == [Wire(ESCAPE_CHAR)] + [Wire(Flip(data))];
      Unroll(side, Lost(e), Wire(ESCAPE_CHAR), [Wire(Flip(data))]);
      Unroll(side, Lost(e).(esc := true), Wire(Flip(data)), []);
    } else {
      assert Bytes(w) == [Wire(w[0])] + [];
      Unroll(side, Lost(e), Wire(w[0]), []);
    }
  }

  /** The answer of the sender, read by an end without a service: the pending byte, once, for its service. */
  lemma AnswerDelivers(side: Side, e: End, sender: End, id: Byte, data: Byte)
    requires EndOk(e) && IsSid(Services(side), id) && Services(side) <= 8 && sender.sidOut == id &&
        sender.last == LastOf(data)
    ensures EndOk(sender) && Again(sender) == [id] + EncodeData(data)
    ensures var r := Run(side, Lost(e), Bytes(Again(sender)));
            r.ok && r.got == [Msg(id, data)] && r.end.sidIn == id && !r.end.esc
  {
    if Special(data) { FlipSpecial(data); }
    assert Again(sender) == [id] + EncodeData(data);
    var m := [Msg(id, data)];
    assert EncodeAll(-1, m) == [id] + EncodeData(data) + EncodeAll(id, []) by { assert m[1..] == []; }
    var w := Again(sender);
    BytesWire(w);
    BytesAnswerable(e.last, w);
    EndToEnd(side, Lost(e), Bytes(w), -1, m);
    QuietDelivery(side, Lost(e), id, data);
  }

  /** A byte with its service is read without a word. */
  lemma QuietDelivery(side: Side, e: End, id: Byte, data: Byte)
    requires EndOk(e) && !e.esc && IsSid(Services(side), id) && Services(side) <= 8
    ensures var r := Run(side, e, Bytes([id] + EncodeData(data))); r.out == [] && !r.end.esc
  {
    var e1 := e.(sidIn := id);
    if Special(data) {
      FlipSpecial(data);
      assert Bytes([id] + EncodeData(data)) == [Wire(id)] + ([Wire(ESCAPE_CHAR)] + ([Wire(Flip(data))] + []));
      Unroll(side, e, Wire(id), [Wire(ESCAPE_CHAR)] + ([Wire(Flip(data))] + []));
      Unroll(side, e1, Wire(ESCAPE_CHAR), [Wire(Flip(data))] + []);
      Unroll(side, e1.(esc := true), Wire(Flip(data)), []);
    } else {
      assert Bytes([id] + EncodeData(data)) == [Wire(id)] + ([Wire(data)] + []);
      Unroll(side, e, Wire(id), [Wire(data)] + []);
      Unroll(side, e1, Wire(data), []);
    }
  }

  /**
    Recovery.  The sender has just sent data for service id, and the receiver has lost its service and escape state
    before the k-th byte of what was sent.  Either the rest still names the service, and delivers the byte; or the
    receiver asks once and delivers nothing, the sender (of either kind) answers, and the answer delivers the byte,
    once.  Then both ends agree on the service again.
   */
  lemma Recovery(side: Side, other: Side, e: End, sender: End, id: Byte, data: Byte, k: nat)
    requires EndOk(e) && EndOk(sender) && IsSid(Services(side), id) && Services(side) <= 8 && Services(other) <= 8
    requires k < |SendStep(sender, id, data).out|
    ensures var sent := SendStep(sender, id, data);
            var r := Run(side, Lost(e), Bytes(sent.out[k..]));
            if k == 0 && sender.sidOut != id then
              r.ok && r.got == [Msg(id, data)] && r.out == [] && r.end.sidIn == sent.end.sidOut && !r.end.esc
            else
              && r.ok && r.got == [] && r.out == [FORCE_SID_CHAR]
              && EndOk(sent.end)
              && var answer := Rx(other, sent.end, FORCE_SID_CHAR);
                 var r' := Run(side, r.end, Bytes(answer.out));
                 && answer.ok && answer.got == [] && r'.ok && r'.got == [Msg(id, data)]
                 && r'.end.sidIn == answer.end.sidOut == id && !r'.end.esc
  {
    hide Run, Bytes, EncodeData, LastOf, Rx, Again, SendStep;
    var sent := SendStep(sender, id, data);
    Sent(sender, id, data, k);
    AnswerDelivers(side, e, sent.end, id, data);
    AnswerStep(other, sent.end);
    if k == 0 && sender.sidOut != id {
      QuietDelivery(side, Lost(e), id, data);
    } else {
      LostAsks(side, e, data, if sender.sidOut != id then k - 1 else k);
    }
  }

  lemma AnswerStep(side: Side, e: End)
    requires EndOk(e) && e.last != -1 && Services(side) <= 8
    ensures Rx(side, e, FORCE_SID_CHAR) == Step(e.(last := -1), Again(e), [], true)
  {
  }

  /** What is left of a byte that was sent, after k bytes on the wire. */
  lemma Sent(sender: End, id: Byte, data: Byte, k: nat)
    requires k < |SendStep(sender, id, data).out|
    ensures var sent := SendStep(sender, id, data);
            && EndOk(sent.end) && sent.end.sidOut == id && sent.end.last == LastOf(data) != -1
            && sent.out[k..] == (if sender.sidOut == id then EncodeData(data)[k..]
                                 else if k == 0 then [id] + EncodeData(data) else EncodeData(data)[k - 1..])
            && k < |EncodeData(data)| + (if sender.sidOut == id then 0 else 1)
  {
  }

  /* ---- The host's serial ports ---- */

  /** SERMUX_SERVICE_MAX serial ports, with or without a file server. */
  const MAX_PORTS: nat := 8

  /** The ID under which bytes of a serial port go out; in file server mode the first one is the server's. */
  function PortId(rfs: int, selidx: nat): Byte
    requires 1 <= selidx <= MAX_PORTS
  {
    SERVICE_ID_FIRST + selidx - 1 + (if rfs == -1 then 0 else 1)
  }

  predicate IsPort(rfs: int, id: Byte) { exists selidx | 1 <= selidx <= MAX_PORTS :: id == PortId(rfs, selidx) }

  /** One byte for service id, read by a device that is in service sid. */
  lemma OneByte(e: End, sid: int, id: Byte, c: Byte)
    requires EndOk(e) && !e.esc && IsSid(8, id) && (sid == e.sidIn || sid != id)
    ensures var w := (if sid != id then [id] else []) + EncodeData(c);
            (sid == id ==> e.sidIn == id) ==> Run(Device(8), e, Bytes(w)).got == [Msg(id, c)]
  {
    hide Run, EncodeData, Bytes, Decode, Clean;
    var w, ms, s := (if sid != id then [id] else []) + EncodeData(c), [Msg(id, c)], if sid == id then id else -1;
    assert EncodeAll(s, ms) == w + EncodeAll(id, []) by { assert ms[1..] == []; }
    EncodeNone(id);
    assert w + [] == w;
    BytesWire(w);
    BytesAnswerable(e.last, w);
    if sid == id ==> e.sidIn == id { EndToEnd(Device(8), e, Bytes(w), s, ms); }
  }

  /**
    A byte from a serial port reaches its own service exactly if the port has a service ID.  In file server mode the
    eighth port has none: its ID is 0xD8, and the device takes ID and byte for data of the service it is in.
   */
  lemma PortDelivered(rfs: int, selidx: nat, c: Byte, sender: End, e: End)
    requires (rfs == -1 || rfs == SERVICE_ID_FIRST) && 1 <= selidx <= MAX_PORTS
    requires EndOk(e) && !e.esc && IsSid(8, e.sidIn) && sender.sidOut == e.sidIn
    ensures var id := PortId(rfs, selidx);
            var r := Run(Device(8), e, Bytes(SendStep(sender, id, c).out));
            && (r.got == [Msg(id, c)] <==> selidx + (if rfs == -1 then 0 else 1) <= MAX_PORTS)
            && (id == 0xD8 ==> r.got == [Msg(e.sidIn, 0xD8), Msg(e.sidIn, c)])
  {
    hide Run, EncodeData, LastOf;
    var id := PortId(rfs, selidx);
    var out := SendStep(sender, id, c).out;
    if id == 0xD8 {
      assert out == [id] + EncodeData(c) && [] + EncodeData(c) == EncodeData(c);
      assert Bytes(out) == [Wire(id)] + Bytes(EncodeData(c));
      Unroll(Device(8), e, Wire(id), Bytes(EncodeData(c)));
      OneByte(e, e.sidIn, e.sidIn, c);
    } else {
      OneByte(e, sender.sidOut, id, c);
    }
  }

  lemma RunNothing(side: Side, e: End)
    requires EndOk(e)
    ensures Run(side, e, []) == Step(e, [], [], true)
  {
  }

  /** A run, from its other end. */
  lemma {:induction false} RunOneMore(side: Side, e: End, tr: seq<Event>, ev: Event)
    requires EndOk(e)
    ensures var a := Run(side, e, tr);
            a.ok ==> var b := EventStep(side, a.end, ev);
                     b.ok ==> Run(side, e, tr + [ev]) == Step(b.end, a.out + b.out, a.got + b.got, true)
    decreases |tr|
  {
    hide Run, EventStep;
    if tr == [] {
      RunNothing(side, e);
      Unroll(side, e, ev, []);
      RunNothing(side, EventStep(side, e, ev).end);
      assert [] + [ev] == [ev] + [];
    } else {
      var x := EventStep(side, e, tr[0]);
      StepOk(side, e, tr[0]);
      assert tr == [tr[0]] + tr[1..] && tr + [ev] == [tr[0]] + (tr[1..] + [ev]);
      Unroll(side, e, tr[0], tr[1..]);
      Unroll(side, e, tr[0], tr[1..] + [ev]);
      RunOneMore(side, x.end, tr[1..], ev);
      var a := Run(side, x.end, tr[1..]);
      var b := EventStep(side, a.end, ev);
      assert x.out + (a.out + b.out) == x.out + a.out + b.out && x.got + (a.got + b.got) == x.got + a.got + b.got;
    }
  }

  /** A run ends where an event ends the program. */
  lemma {:induction false} RunStops(side: Side, e: End, tr: seq<Event>, ev: Event, rest: seq<Event>)
    requires EndOk(e)
    ensures var a := Run(side, e, tr);
            a.ok && !EventStep(side, a.end, ev).ok ==> !Run(side, e, tr + [ev] + rest).ok
    decreases |tr|
  {
    hide Run, EventStep;
    if tr == [] {
      RunNothing(side, e);
      Unroll(side, e, ev, rest);
      assert [] + [ev] + rest == [ev] + rest;
    } else {
      var x := EventStep(side, e, tr[0]);
      StepOk(side, e, tr[0]);
      assert tr == [tr[0]] + tr[1..] && tr + [ev] + rest == [tr[0]] + (tr[1..] + [ev] + rest);
      Unroll(side, e, tr[0], tr[1..]);
      Unroll(side, e, tr[0], tr[1..] + [ev] + rest);
      RunStops(side, x.end, tr[1..], ev, rest);
    }
  }
}
