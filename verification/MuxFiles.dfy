/**
  What the host's loop does with a whole run of events: the multiplexer's protocol, the serial ports, and the remote
  file server that gets its requests and sends its answers over the first service.
 */
module MuxFiles {
  import opened Octets
  import opened Mux
  import opened Rpc
  import opened RfsFramer

  /** The length of an answer; without a proper header there is none. */
  function AnswerSize(b: seq<Byte>): nat {
    var (ok, size) := GetPacketSizeSpec(MemoryOf(b));
    if ok then size else 0
  }

  lemma AnswerHeader(b: seq<Byte>)
    requires |b| >= START_OFFSET
    ensures AnswerSize(b) == if b[0] == TYPE_PKT_SIZE && b[1] == TYPE_INT_16 then Size16(b[2], b[3]) else 0
  {
    HeaderOf(b);
  }

  /** server_execute_request: what the buffer becomes, which may depend on how many requests came before. */
  type Server = (nat, seq<Byte>) -> seq<Byte>

  /** The server works in the buffer, and its answers fit it. */
  ghost predicate ServerOk(server: Server, n: nat) {
    forall k, b | |b| == n :: |server(k, b)| == n && AnswerSize(server(k, b)) <= n
  }

  /** The part of the buffer that is sent as the answer. */
  function AnswerBytes(b: seq<Byte>): seq<Byte> { if AnswerSize(b) <= |b| then b[..AnswerSize(b)] else b }

  /** Without the two tags 0xA5 and 2 in front the buffer holds no packet. */
  predicate NoPacket(b: seq<Byte>) { |b| >= START_OFFSET && (b[0] != 0xA5 || b[1] != 2) }

  /** The answer in the buffer b is the packet w, or there is none. */
  ghost predicate AnswerIs(b: seq<Byte>, w: seq<Byte>) {
    (WellFormed(w) && w <= b) || (w == [] && NoPacket(b))
  }

  /** What is sent of the buffer is the packet in it, from its first byte to its last; without a packet, nothing. */
  lemma AnswerSent(b: seq<Byte>, w: seq<Byte>)
    requires AnswerIs(b, w)
    ensures AnswerBytes(b) == w
  {
    AnswerHeader(b);
    if w != [] { assert b[..4] == w[..4]; }
  }

  /** The buffer when the server was called, and what it made of it. */
  datatype Exchange = Exchange(request: seq<Byte>, answer: seq<Byte>)

  /** A run ends early on a protocol error, or when a byte would be stored past the end of the server's buffer. */
  datatype Status = GoesOn | ProtocolError | OutOfBounds

  /**
    A run so far: the state of protocol and framer; the bytes put on the wire; the messages decoded from it (got) and
    those of them written to serial ports; the messages sent; the server's exchanges, and how many messages had been
    sent before each answer (ats); and everything that happened, answers included, as events of the protocol (turns).
   */
  datatype Served = Served(end: End, framing: Framing, wire: seq<Byte>, got: seq<Msg>, ports: seq<Msg>, sent: seq<Msg>,
                           calls: seq<Exchange>, ats: seq<nat>, turns: seq<Event>, status: Status)

  function Initial(e: End, fr: Framing): Served { Served(e, fr, [], [], [], [], [], [], [], GoesOn) }

  /** One byte is sent. */
  function SendOne(s: Served, id: Byte, data: Byte): Served {
    var a := SendStep(s.end, id, data);
    s.(end := a.end, wire := s.wire + a.out, sent := s.sent + [Msg(id, data)], turns := s.turns + [Send(id, data)])
  }

  /** An answer is sent, byte by byte. */
  function SendAll(s: Served, bytes: seq<Byte>): Served
    decreases |bytes|
  {
    if bytes == [] then s else SendAll(SendOne(s, SERVICE_ID_FIRST, bytes[0]), bytes[1..])
  }

  /** A byte for the file server, and the server's work if it completes a request; the answer is still to be sent. */
  function FileByte(server: Server, s: Served, c: Byte): Served {
    if !HasRoom(s.framing) then s.(status := OutOfBounds)
    else
      var f := Feed(s.framing, c);
      if !f.flag then s.(framing := f)
      else
        var answer := server(|s.calls|, f.buf);
        s.(framing := Start(answer), calls := s.calls + [Exchange(f.buf, answer)], ats := s.ats + [|s.sent|])
  }

  /** A byte from the wire, with the protocol's step for it. */
  function TakeByte(rfs: int, server: Server, s: Served, ev: Event, a: Step): Served {
    var t := s.(end := a.end, wire := s.wire + a.out, got := s.got + a.got, turns := s.turns + [ev]);
    if !a.ok then s.(status := ProtocolError, turns := s.turns + [ev])
    else if a.got == [] then t
    else if a.got[0].id != rfs then t.(ports := t.ports + a.got)
    else FileByte(server, t, a.got[0].data)
  }

  /** What is to be sent before the next event: the answer that this event brought about. */
  function ToSend(s: Served, t: Served): seq<Byte> {
    if |s.calls| < |t.calls| then AnswerBytes(t.calls[|t.calls| - 1].answer) else []
  }

  /** One event, and the answer it may bring about, which goes out before anything else is looked at. */
  function ServeOne(rfs: int, server: Server, s: Served, ev: Event): Served
    requires EndOk(s.end)
  {
    if s.status != GoesOn then s
    else
      match ev
      case Send(id, data) => SendOne(s, id, data)
      case Wire(c) => var t := TakeByte(rfs, server, s, ev, HostRx(s.end, c)); SendAll(t, ToSend(s, t))
      case Request => var t := TakeByte(rfs, server, s, ev, HostRx(s.end, FORCE_SID_CHAR)); SendAll(t, ToSend(s, t))
  }

  lemma {:induction false} SendAllOk(s: Served, bytes: seq<Byte>)
    requires EndOk(s.end)
    ensures EndOk(SendAll(s, bytes).end)
    decreases |bytes|
  {
    if bytes != [] { SendAllOk(SendOne(s, SERVICE_ID_FIRST, bytes[0]), bytes[1..]); }
  }

  lemma ServeOneOk(rfs: int, server: Server, s: Served, ev: Event)
    requires EndOk(s.end)
    ensures EndOk(ServeOne(rfs, server, s, ev).end)
  {
    hide SendAll, ToSend, Feed;
    if s.status == GoesOn && !ev.Send? {
      var t := TakeByte(rfs, server, s, ev, HostRx(s.end, if ev.Wire? then ev.c else FORCE_SID_CHAR));
      StepOk(Host, s.end, ev);
      SendAllOk(t, ToSend(s, t));
    }
  }

  /** A whole run. */
  function ServeAll(rfs: int, server: Server, s: Served, tr: seq<Event>): (r: Served)
    requires EndOk(s.end)
    ensures EndOk(r.end)
    decreases |tr|
  {
    if tr == [] then s
    else
      var t := ServeAll(rfs, server, s, tr[..|tr| - 1]);
      ServeOneOk(rfs, server, t, tr[|tr| - 1]);
      ServeOne(rfs, server, t, tr[|tr| - 1])
  }

  lemma ServeOneMore(rfs: int, server: Server, s: Served, tr: seq<Event>, i: nat)
    requires EndOk(s.end) && i < |tr|
    ensures ServeAll(rfs, server, s, tr[..i + 1]) == ServeOne(rfs, server, ServeAll(rfs, server, s, tr[..i]), tr[i])
  {
    hide ServeOne;
    assert tr[..i + 1][..i] == tr[..i];
  }

  /** Once it has ended, a run does not change any more. */
  lemma {:induction false} Ended(rfs: int, server: Server, s: Served, tr: seq<Event>, i: nat)
    requires EndOk(s.end) && i <= |tr| && ServeAll(rfs, server, s, tr[..i]).status != GoesOn
    ensures ServeAll(rfs, server, s, tr) == ServeAll(rfs, server, s, tr[..i])
    decreases |tr| - i
  {
    if i < |tr| {
      ServeOneMore(rfs, server, s, tr, i);
      Ended(rfs, server, s, tr, i + 1);
    } else {
      assert tr[..i] == tr;
    }
  }

  /* ---- The bytes of one service ---- */

  function DataFor(m: Msg, sid: int): seq<Byte> { if m.id == sid then [m.data] else [] }

  function Other(m: Msg, sid: int): seq<Msg> { if m.id == sid then [] else [m] }

  /** The bytes delivered to, or sent for, one service. */
  ghost function For(msgs: seq<Msg>, sid: int): seq<Byte> {
    if msgs == [] then [] else For(msgs[..|msgs| - 1], sid) + DataFor(msgs[|msgs| - 1], sid)
  }

  /** The messages of all other services. */
  ghost function Others(msgs: seq<Msg>, sid: int): seq<Msg> {
    if msgs == [] then [] else Others(msgs[..|msgs| - 1], sid) + Other(msgs[|msgs| - 1], sid)
  }

  lemma SplitOneMore(msgs: seq<Msg>, m: Msg, sid: int)
    ensures For(msgs + [m], sid) == For(msgs, sid) + DataFor(m, sid)
    ensures Others(msgs + [m], sid) == Others(msgs, sid) + Other(m, sid)
  {
    hide DataFor, Other;
    assert (msgs + [m])[..|msgs|] == msgs;
  }

  lemma SplitNone(sid: int)
    ensures For([], sid) == [] && Others([], sid) == []
  {
  }

  lemma {:induction false} SplitAppend(a: seq<Msg>, b: seq<Msg>, sid: int)
    ensures For(a + b, sid) == For(a, sid) + For(b, sid)
    ensures Others(a + b, sid) == Others(a, sid) + Others(b, sid)
    decreases |b|
  {
    hide For, Others, DataFor, Other;
    if b == [] {
      assert a + b == a;
      SplitNone(sid);
    } else {
      var b', m := b[..|b| - 1], b[|b| - 1];
      SplitAppend(a, b', sid);
      assert a + b == a + b' + [m] && b == b' + [m];
      SplitOneMore(a + b', m, sid);
      SplitOneMore(b', m, sid);
      assert For(a, sid) + For(b', sid) + DataFor(m, sid) == For(a, sid) + (For(b', sid) + DataFor(m, sid));
      assert Others(a, sid) + Others(b', sid) + Other(m, sid) == Others(a, sid) + (Others(b', sid) + Other(m, sid));
    }
  }

  /** The messages that carry bytes on one service. */
  function Carry(sid: Byte, bytes: seq<Byte>): (r: seq<Msg>)
    ensures |r| == |bytes| && forall i | 0 <= i < |r| :: r[i] == Msg(sid, bytes[i])
  {
    seq(|bytes|, i requires 0 <= i < |bytes| => Msg(sid, bytes[i]))
  }

  lemma CarryCons(sid: Byte, bytes: seq<Byte>)
    requires bytes != []
    ensures Carry(sid, bytes) == [Msg(sid, bytes[0])] + Carry(sid, bytes[1..])
  {
  }

  lemma {:induction false} ForCarry(sid: Byte, bytes: seq<Byte>)
    ensures For(Carry(sid, bytes), sid) == bytes && Others(Carry(sid, bytes), sid) == []
    decreases |bytes|
  {
    if bytes != [] {
      hide For, Others;
      var b, c := bytes[..|bytes| - 1], bytes[|bytes| - 1];
      ForCarry(sid, b);
      assert Carry(sid, bytes) == Carry(sid, b) + [Msg(sid, c)];
      SplitOneMore(Carry(sid, b), Msg(sid, c), sid);
      assert bytes == b + [c];
    }
  }

  /* ---- The framer and the server, on the bytes of their service alone ---- */

  datatype Framed = Framed(framing: Framing, calls: seq<Exchange>, ok: bool)

  function NextByte(server: Server, x: Framed, c: Byte): Framed {
    if !x.ok then x
    else if !HasRoom(x.framing) then x.(ok := false)
    else
      var f := Feed(x.framing, c);
      if !f.flag then x.(framing := f)
      else
        var answer := server(|x.calls|, f.buf);
        Framed(Start(answer), x.calls + [Exchange(f.buf, answer)], true)
  }

  function ServeBytes(server: Server, x: Framed, bytes: seq<Byte>): Framed
    decreases |bytes|
  {
    if bytes == [] then x else NextByte(server, ServeBytes(server, x, bytes[..|bytes| - 1]), bytes[|bytes| - 1])
  }

  lemma BytesOneMore(server: Server, x: Framed, bytes: seq<Byte>, c: Byte)
    ensures ServeBytes(server, x, bytes + [c]) == NextByte(server, ServeBytes(server, x, bytes), c)
  {
    hide NextByte;
    assert (bytes + [c])[..|bytes|] == bytes;
  }

  lemma {:induction false} BytesAppend(server: Server, x: Framed, a: seq<Byte>, b: seq<Byte>)
    ensures ServeBytes(server, x, a + b) == ServeBytes(server, ServeBytes(server, x, a), b)
    decreases |b|
  {
    hide NextByte;
    if b == [] {
      assert a + b == a;
    } else {
      var b', c := b[..|b| - 1], b[|b| - 1];
      BytesAppend(server, x, a, b');
      BytesOneMore(server, x, a + b', c);
      assert a + b == a + b' + [c];
    }
  }

  /** What was well for all bytes was well for the first of them. */
  lemma {:induction false} WellBefore(server: Server, x: Framed, a: seq<Byte>, b: seq<Byte>)
    requires ServeBytes(server, x, a + b).ok
    ensures ServeBytes(server, x, a).ok
    decreases |b|
  {
    if b == [] {
      assert a + b == a;
    } else {
      var b', c := b[..|b| - 1], b[|b| - 1];
      BytesOneMore(server, x, a + b', c);
      assert a + b == a + b' + [c];
      hide ServeBytes;
      WellBefore(server, x, a, b');
    }
  }

  /* ---- The loop is the protocol, the ports and the server side by side ---- */

  lemma {:induction false} SentByAppend(a: seq<Event>, b: seq<Event>)
    ensures SentBy(a + b) == SentBy(a) + SentBy(b)
    decreases |a|
  {
    if a == [] {
      assert a + b == b;
    } else {
      assert (a + b)[1..] == a[1..] + b && (a + b)[0] == a[0];
      SentByAppend(a[1..], b);
      assert SendOf(a[0]) + (SentBy(a[1..]) + SentBy(b)) == SendOf(a[0]) + SentBy(a[1..]) + SentBy(b);
    }
  }

  lemma {:induction false} WireAppend(a: seq<Event>, b: seq<Event>)
    ensures WireOf(a + b) == WireOf(a) + WireOf(b)
    decreases |a|
  {
    if a == [] {
      assert a + b == b;
    } else {
      assert (a + b)[1..] == a[1..] + b && (a + b)[0] == a[0];
      WireAppend(a[1..], b);
      assert WireByte(a[0]) + (WireOf(a[1..]) + WireOf(b)) == WireByte(a[0]) + WireOf(a[1..]) + WireOf(b);
    }
  }

  lemma OneEvent(ev: Event)
    ensures SentBy([ev]) == SendOf(ev) && WireOf([ev]) == WireByte(ev)
  {
  }

  ghost predicate ProtocolIs(e: End, r: Served)
    requires EndOk(e)
  {
    var run := Run(Host, e, r.turns);
    && (run.ok <==> r.status != ProtocolError)
    && (r.status != ProtocolError ==> run == Step(r.end, r.wire, r.got, true))
    && SentBy(r.turns) == r.sent
  }

  /** Ports and server get the messages of the protocol's run, each its own. */
  ghost predicate Consistent(rfs: int, server: Server, e: End, fr: Framing, r: Served)
    requires EndOk(e)
  {
    && ProtocolIs(e, r) && EndOk(r.end)
    && r.ports == Others(r.got, rfs)
    && ServeBytes(server, Framed(fr, [], true), For(r.got, rfs)) == Framed(r.framing, r.calls, r.status != OutOfBounds)
  }

  lemma ProtocolSend(e: End, s: Served, id: Byte, data: Byte)
    requires EndOk(e) && ProtocolIs(e, s) && EndOk(s.end) && s.status == GoesOn
    ensures ProtocolIs(e, SendOne(s, id, data)) && EndOk(SendOne(s, id, data).end)
  {
    hide Run, EncodeData, LastOf;
    RunOneMore(Host, e, s.turns, Send(id, data));
    SentByAppend(s.turns, [Send(id, data)]);
    OneEvent(Send(id, data));
    StepOk(Host, s.end, Send(id, data));
  }

  lemma {:induction false} ConsistentSend(rfs: int, server: Server, e: End, fr: Framing, s: Served, bytes: seq<Byte>)
    requires EndOk(e) && Consistent(rfs, server, e, fr, s) && s.status == GoesOn
    ensures Consistent(rfs, server, e, fr, SendAll(s, bytes)) && SendAll(s, bytes).status == GoesOn
    decreases |bytes|
  {
    hide ProtocolIs, ServeBytes;
    if bytes != [] {
      ProtocolSend(e, s, SERVICE_ID_FIRST, bytes[0]);
      ConsistentSend(rfs, server, e, fr, SendOne(s, SERVICE_ID_FIRST, bytes[0]), bytes[1..]);
    }
  }

  lemma TakeFields(rfs: int, server: Server, s: Served, ev: Event, a: Step)
    requires s.status == GoesOn
    ensures var t := TakeByte(rfs, server, s, ev, a);
            && t.sent == s.sent && t.turns == s.turns + [ev] && (t.status == ProtocolError <==> !a.ok)
            && (a.ok ==> t.end == a.end && t.wire == s.wire + a.out && t.got == s.got + a.got)
            && (!a.ok ==> t == s.(status := ProtocolError, turns := s.turns + [ev]))
  {
    hide Feed, HasRoom;
  }

  /** The protocol's part of reading a byte. */
  lemma ProtocolTake(rfs: int, server: Server, e: End, s: Served, ev: Event)
    requires EndOk(e) && ProtocolIs(e, s) && EndOk(s.end) && s.status == GoesOn && !ev.Send?
    ensures var t := TakeByte(rfs, server, s, ev, EventStep(Host, s.end, ev)); ProtocolIs(e, t) && EndOk(t.end)
  {
    hide Run, TakeByte, EventStep;
    TakeFields(rfs, server, s, ev, EventStep(Host, s.end, ev));
    RunOneMore(Host, e, s.turns, ev);
    RunStops(Host, e, s.turns, ev, []);
    assert s.turns + [ev] + [] == s.turns + [ev];
    SentByAppend(s.turns, [ev]);
    OneEvent(ev);
    StepOk(Host, s.end, ev);
  }

  /** A byte read delivers at most one message. */
  lemma OneMsg(e: End, ev: Event)
    requires EndOk(e)
    ensures var a := EventStep(Host, e, ev); a.got == [] || (a.ok && a.got == [a.got[0]])
  {
  }

  lemma ConsistentTake(rfs: int, server: Server, e: End, fr: Framing, s: Served, ev: Event)
    requires EndOk(e) && Consistent(rfs, server, e, fr, s) && s.status == GoesOn && !ev.Send?
    ensures Consistent(rfs, server, e, fr, TakeByte(rfs, server, s, ev, EventStep(Host, s.end, ev)))
  {
    ProtocolTake(rfs, server, e, s, ev);
    OneMsg(s.end, ev);
    hide ProtocolIs, EventStep;
    BytesTake(rfs, server, fr, s, ev, EventStep(Host, s.end, ev));
    hide ServeBytes, TakeByte;
  }

  lemma BytesTake(rfs: int, server: Server, fr: Framing, s: Served, ev: Event, a: Step)
    requires s.status == GoesOn && (a.got == [] || (a.ok && a.got == [a.got[0]]))
    requires s.ports == Others(s.got, rfs)
    requires ServeBytes(server, Framed(fr, [], true), For(s.got, rfs)) == Framed(s.framing, s.calls, true)
    ensures var t := TakeByte(rfs, server, s, ev, a);
            && t.ports == Others(t.got, rfs)
            && ServeBytes(server, Framed(fr, [], true), For(t.got, rfs)) ==
                Framed(t.framing, t.calls, t.status != OutOfBounds)
  {
    hide ServeBytes, Feed;
    if a.got != [] {
      SplitOneMore(s.got, a.got[0], rfs);
      BytesOneMore(server, Framed(fr, [], true), For(s.got, rfs), a.got[0].data);
      assert For(s.got, rfs) + [] == For(s.got, rfs) && Others(s.got, rfs) + [] == Others(s.got, rfs);
    } else {
      assert s.got + a.got == s.got;
    }
  }

  lemma ConsistentOne(rfs: int, server: Server, e: End, fr: Framing, s: Served, ev: Event)
    requires EndOk(e) && Consistent(rfs, server, e, fr, s)
    ensures Consistent(rfs, server, e, fr, ServeOne(rfs, server, s, ev))
  {
    hide ServeBytes, ProtocolIs;
    if s.status == GoesOn {
      if ev.Send? {
        ProtocolSend(e, s, ev.id, ev.data);
      } else {
        ConsistentTake(rfs, server, e, fr, s, ev);
        hide Consistent;
        var t := TakeByte(rfs, server, s, ev, EventStep(Host, s.end, ev));
        if t.status == GoesOn {
          ConsistentSend(rfs, server, e, fr, t, ToSend(s, t));
        } else {
          NothingToSend(rfs, server, s, ev, EventStep(Host, s.end, ev));
        }
      }
    }
  }

  lemma NothingToSend(rfs: int, server: Server, s: Served, ev: Event, a: Step)
    ensures var t := TakeByte(rfs, server, s, ev, a);
        t.status != GoesOn && s.status == GoesOn ==> SendAll(t, ToSend(s, t)) == t
  {
  }

  /**
    The loop, for every run: the bytes on the wire, both ways, are the protocol's; every message decoded goes to its
    port, or its byte to the server's framer; and what the server is called with depends on the bytes of its service
    alone.
   */
  lemma {:induction false} LoopConsistent(rfs: int, server: Server, e: End, fr: Framing, tr: seq<Event>)
    requires EndOk(e)
    ensures Consistent(rfs, server, e, fr, ServeAll(rfs, server, Initial(e, fr), tr))
    decreases |tr|
  {
    if tr == [] {
      RunNothing(Host, e);
    } else {
      hide Consistent, ServeOne;
      LoopConsistent(rfs, server, e, fr, tr[..|tr| - 1]);
      ConsistentOne(rfs, server, e, fr, ServeAll(rfs, server, Initial(e, fr), tr[..|tr| - 1]), tr[|tr| - 1]);
    }
  }

  /** A host that serves no files is the protocol alone, and every message goes to a port. */
  lemma PlainMultiplexer(server: Server, e: End, fr: Framing, tr: seq<Event>)
    requires EndOk(e)
    ensures var r, run := ServeAll(-1, server, Initial(e, fr), tr), Run(Host, e, tr);
            && r.calls == [] && r.framing == fr && (r.status == if run.ok then GoesOn else ProtocolError)
            && (run.ok ==> r.end == run.end && r.wire == run.out && r.ports == run.got)
    decreases |tr|
  {
    hide Run, ServeOne;
    if tr == [] {
      RunNothing(Host, e);
    } else {
      var front, ev := tr[..|tr| - 1], tr[|tr| - 1];
      assert tr == front + [ev];
      PlainMultiplexer(server, e, fr, front);
      var s := ServeAll(-1, server, Initial(e, fr), front);
      RunOneMore(Host, e, front, ev);
      RunStops(Host, e, front, ev, []);
      assert front + [ev] + [] == tr;
      RunEnded(Host, e, front, ev);
      if s.status == GoesOn { PlainOne(server, s, ev); } else { PlainEnded(server, s, ev); }
    }
  }

  lemma PlainEnded(server: Server, s: Served, ev: Event)
    requires EndOk(s.end) && s.status != GoesOn
    ensures ServeOne(-1, server, s, ev) == s
  {
  }

  lemma PlainOne(server: Server, s: Served, ev: Event)
    requires EndOk(s.end) && s.status == GoesOn
    ensures var a, t := EventStep(Host, s.end, ev), ServeOne(-1, server, s, ev);
            && t.calls == s.calls && t.framing == s.framing && t.status == (if a.ok then GoesOn else ProtocolError)
            && (a.ok ==> t.end == a.end && t.wire == s.wire + a.out && t.ports == s.ports + a.got)
  {
    DeliveredTo(s.end, ev);
    hide HostRx, SendStep;
  }

  lemma DeliveredTo(e: End, ev: Event)
    requires EndOk(e)
    ensures var a := EventStep(Host, e, ev); a.got == [] || a.got[0].id != -1
  {
  }

  /** A run that has ended stays as it is. */
  lemma {:induction false} RunEnded(side: Side, e: End, tr: seq<Event>, ev: Event)
    requires EndOk(e)
    ensures !Run(side, e, tr).ok ==> !Run(side, e, tr + [ev]).ok
    decreases |tr|
  {
    hide Run, EventStep;
    if tr == [] {
      RunNothing(side, e);
    } else {
      assert tr == [tr[0]] + tr[1..] && tr + [ev] == [tr[0]] + (tr[1..] + [ev]);
      StepOk(side, e, tr[0]);
      Unroll(side, e, tr[0], tr[1..]);
      Unroll(side, e, tr[0], tr[1..] + [ev]);
      RunEnded(side, EventStep(side, e, tr[0]).end, tr[1..], ev);
    }
  }

  /* ---- Packets, one after the other ---- */

  ghost function Joined(packets: seq<seq<Byte>>): seq<Byte> {
    if packets == [] then [] else Joined(packets[..|packets| - 1]) + packets[|packets| - 1]
  }

  /** Well-formed packets that fit a buffer of n bytes. */
  ghost predicate PacketsOk(packets: seq<seq<Byte>>, n: nat) {
    forall i | 0 <= i < |packets| :: WellFormed(packets[i]) && |packets[i]| <= n
  }

  /** What the buffer holds after some exchanges. */
  ghost function LastBuffer(buf: seq<Byte>, xs: seq<Exchange>): seq<Byte> {
    if xs == [] then buf else xs[|xs| - 1].answer
  }

  /** Packet w is laid over what the buffer held before, and the server makes its answer of that. */
  ghost predicate ExchangeIs(server: Server, before: seq<Byte>, i: nat, w: seq<Byte>, x: Exchange, n: nat) {
    |w| <= |before| == n && x.request == w + before[|w|..] && x.answer == server(i, x.request) && |x.answer| == n
  }

  ghost predicate ExchangesFor(server: Server, buf: seq<Byte>, packets: seq<seq<Byte>>, xs: seq<Exchange>) {
    && |xs| == |packets|
    && forall i | 0 <= i < |xs| :: ExchangeIs(server, LastBuffer(buf, xs[..i]), i, packets[i], xs[i], |buf|)
  }

  lemma ExchangesMore(server: Server, buf: seq<Byte>, packets: seq<seq<Byte>>, xs: seq<Exchange>, w: seq<Byte>,
      x: Exchange)
    requires ExchangesFor(server, buf, packets, xs) && ExchangeIs(server, LastBuffer(buf, xs), |xs|, w, x, |buf|)
    ensures ExchangesFor(server, buf, packets + [w], xs + [x])
  {
    hide ExchangeIs, LastBuffer;
    var ys, ps := xs + [x], packets + [w];
    forall i | 0 <= i < |ys| ensures ExchangeIs(server, LastBuffer(buf, ys[..i]), i, ps[i], ys[i], |buf|) {
      if i < |xs| { assert ys[..i] == xs[..i]; } else { assert ys[..i] == xs; }
    }
  }

  lemma PartialIs(b: seq<Byte>, w: seq<Byte>, k: nat)
    requires k <= |w| <= |b| && |w| > START_OFFSET
    ensures Partial(b, w, k).flag <==> k == |w|
    ensures Partial(b, w, 0) == Start(b)
    ensures Partial(b, w, |w|).buf == w + b[|w|..]
  {
    assert w[..0] + b[0..] == b;
    assert w[..|w|] == w;
  }

  /** The first k bytes of a packet. */
  lemma {:induction false} PacketSoFar(server: Server, b: seq<Byte>, calls: seq<Exchange>, w: seq<Byte>, k: nat)
    requires WellFormed(w) && k < |w| <= |b|
    ensures ServeBytes(server, Framed(Start(b), calls, true), w[..k]) == Framed(Partial(b, w, k), calls, true)
  {
    hide Feed, Partial;
    PartialIs(b, w, k);
    if k > 0 {
      PacketSoFar(server, b, calls, w, k - 1);
      FeedPartial(b, w, k - 1);
      hide ServeBytes;
      BytesOneMore(server, Framed(Start(b), calls, true), w[..k - 1], w[k - 1]);
      assert w[..k] == w[..k - 1] + [w[k - 1]];
    }
  }

  lemma OnePacket(server: Server, b: seq<Byte>, calls: seq<Exchange>, w: seq<Byte>)
    requires WellFormed(w) && |w| <= |b|
    ensures var req := w + b[|w|..]; var answer := server(|calls|, req);
            ServeBytes(server, Framed(Start(b), calls, true), w) ==
                Framed(Start(answer), calls + [Exchange(req, answer)], true)
  {
    hide NextByte, WellFormed, ServeBytes, Partial;
    LastOfPacket(server, b, calls, w);
    var n := |w| - 1;
    var front, last := w[..n], w[n];
    PacketSoFar(server, b, calls, w, n);
    BytesOneMore(server, Framed(Start(b), calls, true), front, last);
    assert w == front + [last];
  }

  lemma LastOfPacket(server: Server, b: seq<Byte>, calls: seq<Exchange>, w: seq<Byte>)
    requires WellFormed(w) && |w| <= |b|
    ensures |w| > START_OFFSET
    ensures var req := w + b[|w|..]; var answer := server(|calls|, req);
            NextByte(server, Framed(Partial(b, w, |w| - 1), calls, true), w[|w| - 1]) ==
              Framed(Start(answer), calls + [Exchange(req, answer)], true)
  {
    FeedPartial(b, w, |w| - 1);
    PartialIs(b, w, |w|);
    hide Feed, HasRoom, NextByte, Partial;
    LastByte(server, Framed(Partial(b, w, |w| - 1), calls, true), w[|w| - 1], Partial(b, w, |w|));
  }

  lemma LastByte(server: Server, x: Framed, c: Byte, f: Framing)
    requires x.ok && HasRoom(x.framing) && Feed(x.framing, c) == f && f.flag
    ensures var answer := server(|x.calls|, f.buf);
            NextByte(server, x, c) == Framed(Start(answer), x.calls + [Exchange(f.buf, answer)], true)
  {
    hide Feed;
  }

  lemma ExchangeMade(server: Server, b: seq<Byte>, i: nat, w: seq<Byte>)
    requires ServerOk(server, |b|) && |w| <= |b|
    ensures var req := w + b[|w|..]; ExchangeIs(server, b, i, w, Exchange(req, server(i, req)), |b|)
  {
    assert |w + b[|w|..]| == |b|;
  }

  lemma SameLength(server: Server, buf: seq<Byte>, packets: seq<seq<Byte>>, xs: seq<Exchange>)
    requires ExchangesFor(server, buf, packets, xs)
    ensures |xs| == |packets|
  {
  }

  lemma AnswerLength(server: Server, b: seq<Byte>, i: nat, w: seq<Byte>, x: Exchange)
    requires ExchangeIs(server, b, i, w, x, |b|)
    ensures |x.answer| == |b|
  {
  }

  lemma {:induction false} PacketsServed(server: Server, buf: seq<Byte>, packets: seq<seq<Byte>>)
      returns (xs: seq<Exchange>)
    requires ServerOk(server, |buf|) && PacketsOk(packets, |buf|)
    ensures ServeBytes(server, Framed(Start(buf), [], true), Joined(packets)) ==
        Framed(Start(LastBuffer(buf, xs)), xs, true)
    ensures ExchangesFor(server, buf, packets, xs) && |LastBuffer(buf, xs)| == |buf|
    decreases |packets|
  {
    if packets == [] {
      xs := [];
    } else {
      hide ServeBytes, WellFormed, ExchangeIs, ExchangesFor;
      var front, w := packets[..|packets| - 1], packets[|packets| - 1];
      assert packets == front + [w];
      var ys := PacketsServed(server, buf, front);
      var b := LastBuffer(buf, ys);
      var x := Exchange(w + b[|w|..], server(|ys|, w + b[|w|..]));
      OnePacket(server, b, ys, w);
      BytesAppend(server, Framed(Start(buf), [], true), Joined(front), w);
      ExchangeMade(server, b, |ys|, w);
      SameLength(server, buf, front, ys);
      ExchangesMore(server, buf, front, ys, w, x);
      xs := ys + [x];
      AnswerLength(server, b, |ys|, w, x);
    }
  }

  /* ---- Answers ---- */

  /** The events of sending an answer. */
  ghost function AnswerEvents(bytes: seq<Byte>): (r: seq<Event>)
    ensures |r| == |bytes| && forall i | 0 <= i < |r| :: r[i] == Send(SERVICE_ID_FIRST, bytes[i])
  {
    seq(|bytes|, i requires 0 <= i < |bytes| => Send(SERVICE_ID_FIRST, bytes[i]))
  }

  /** Sending an answer changes nothing but what is sent. */
  lemma SendAllFields(s: Served, bytes: seq<Byte>)
    ensures var t := SendAll(s, bytes);
            && t.sent == s.sent + Carry(SERVICE_ID_FIRST, bytes) && t.turns == s.turns + AnswerEvents(bytes)
            && t == s.(end := t.end, wire := t.wire, sent := t.sent, turns := t.turns)
  {
    hide SendAll;
    SendAllSent(s, bytes);
    SendAllTurns(s, bytes);
    SendAllSame(s, bytes);
  }

  lemma {:induction false} SendAllSent(s: Served, bytes: seq<Byte>)
    ensures SendAll(s, bytes).sent == s.sent + Carry(SERVICE_ID_FIRST, bytes)
    decreases |bytes|
  {
    if bytes != [] {
      SendAllSent(SendOne(s, SERVICE_ID_FIRST, bytes[0]), bytes[1..]);
      CarryCons(SERVICE_ID_FIRST, bytes);
      hide SendStep, Carry;
    }
  }

  lemma {:induction false} SendAllTurns(s: Served, bytes: seq<Byte>)
    ensures SendAll(s, bytes).turns == s.turns + AnswerEvents(bytes)
    decreases |bytes|
  {
    if bytes != [] {
      SendAllTurns(SendOne(s, SERVICE_ID_FIRST, bytes[0]), bytes[1..]);
      assert AnswerEvents(bytes) == [Send(SERVICE_ID_FIRST, bytes[0])] + AnswerEvents(bytes[1..]);
      hide SendStep, AnswerEvents;
    }
  }

  lemma {:induction false} SendAllSame(s: Served, bytes: seq<Byte>)
    ensures var t := SendAll(s, bytes); t == s.(end := t.end, wire := t.wire, sent := t.sent, turns := t.turns)
    decreases |bytes|
  {
    hide SendStep;
    if bytes != [] { SendAllSame(SendOne(s, SERVICE_ID_FIRST, bytes[0]), bytes[1..]); }
  }

  /** All answers, one after the other. */
  ghost function AllAnswers(calls: seq<Exchange>): seq<Byte> {
    if calls == [] then [] else AllAnswers(calls[..|calls| - 1]) + AnswerBytes(calls[|calls| - 1].answer)
  }

  lemma AnswersMore(calls: seq<Exchange>, x: Exchange)
    ensures AllAnswers(calls + [x]) == AllAnswers(calls) + AnswerBytes(x.answer)
  {
    hide AnswerBytes;
    assert (calls + [x])[..|calls|] == calls;
  }

  /** The i-th answer went out whole: its bytes, and nothing else, from the message numbered at on. */
  ghost predicate AnswerAt(sent: seq<Msg>, at: nat, x: Exchange) {
    var bytes := AnswerBytes(x.answer);
    at + |bytes| <= |sent| && sent[at..at + |bytes|] == Carry(SERVICE_ID_FIRST, bytes)
  }

  /**
    Every answer went out whole; the bytes sent on the first service are the answers, and the other messages are own.
   */
  ghost predicate AnswersSent(r: Served, own: seq<Msg>) {
    && |r.ats| == |r.calls|
    && (forall i | 0 <= i < |r.ats| :: AnswerAt(r.sent, r.ats[i], r.calls[i]))
    && For(r.sent, SERVICE_ID_FIRST) == AllAnswers(r.calls)
    && Others(r.sent, SERVICE_ID_FIRST) == own
  }

  /** Every answer that is a packet went out as it is, byte after byte, on the first service. */
  ghost predicate WholePackets(sent: seq<Msg>, ats: seq<nat>, calls: seq<Exchange>) {
    && |ats| == |calls|
    && forall i, w | 0 <= i < |calls| && WellFormed(w) && w <= calls[i].answer ::
         ats[i] + |w| <= |sent| && forall x | 0 <= x < |w| :: sent[ats[i] + x] == Msg(SERVICE_ID_FIRST, w[x])
  }

  /** Nothing but the packets of the answers went out on the first service. */
  ghost predicate OnlyPackets(sent: seq<Msg>, calls: seq<Exchange>) {
    forall ws: seq<seq<Byte>> | AnswersAre(calls, ws) :: For(sent, SERVICE_ID_FIRST) == Joined(ws)
  }

  ghost predicate AnswersAre(calls: seq<Exchange>, ws: seq<seq<Byte>>) {
    |ws| == |calls| && forall i | 0 <= i < |ws| :: AnswerIs(calls[i].answer, ws[i])
  }

  lemma {:induction false} PacketsJoin(calls: seq<Exchange>, ws: seq<seq<Byte>>)
    requires AnswersAre(calls, ws)
    ensures AllAnswers(calls) == Joined(ws)
    decreases |ws|
  {
    hide AnswerIs, AnswerBytes;
    if ws != [] {
      var n := |ws| - 1;
      PacketsJoin(calls[..n], ws[..n]);
      AnswerSent(calls[n].answer, ws[n]);
    }
  }

  /** So the packets in the server's answers, all of them and whole, are what goes out on the first service. */
  lemma PacketsSent(r: Served, own: seq<Msg>)
    requires AnswersSent(r, own)
    ensures WholePackets(r.sent, r.ats, r.calls) && OnlyPackets(r.sent, r.calls)
  {
    hide AnswerBytes, For, Joined, AllAnswers, AnswersAre;
    forall i, w | 0 <= i < |r.calls| && WellFormed(w) && w <= r.calls[i].answer
      ensures r.ats[i] + |w| <= |r.sent|
      ensures forall x | 0 <= x < |w| :: r.sent[r.ats[i] + x] == Msg(SERVICE_ID_FIRST, w[x])
    {
      PacketAt(r.sent, r.ats[i], r.calls[i], w);
    }
    forall ws: seq<seq<Byte>> | AnswersAre(r.calls, ws) ensures AllAnswers(r.calls) == Joined(ws) {
      PacketsJoin(r.calls, ws);
    }
  }

  lemma PacketAt(sent: seq<Msg>, at: nat, x: Exchange, w: seq<Byte>)
    requires AnswerAt(sent, at, x) && WellFormed(w) && w <= x.answer
    ensures at + |w| <= |sent| && forall y | 0 <= y < |w| :: sent[at + y] == Msg(SERVICE_ID_FIRST, w[y])
  {
    AnswerSent(x.answer, w);
    hide AnswerBytes;
    forall y | 0 <= y < |w| ensures sent[at + y] == Msg(SERVICE_ID_FIRST, w[y]) {
      assert sent[at..at + |w|][y] == sent[at + y];
    }
  }

  lemma AnswerStays(sent: seq<Msg>, more: seq<Msg>, at: nat, x: Exchange)
    requires AnswerAt(sent, at, x)
    ensures AnswerAt(sent + more, at, x)
  {
    hide AnswerBytes, Carry;
    var n := |AnswerBytes(x.answer)|;
    assert (sent + more)[at..at + n] == sent[at..at + n];
  }

  /** Sending one byte for another service. */
  lemma OwnSend(s: Served, own: seq<Msg>, id: Byte, data: Byte)
    requires AnswersSent(s, own) && id != SERVICE_ID_FIRST
    ensures AnswersSent(SendOne(s, id, data), own + [Msg(id, data)])
  {
    hide AnswerAt, For, Others, AllAnswers, SendStep;
    SplitOneMore(s.sent, Msg(id, data), SERVICE_ID_FIRST);
    forall i | 0 <= i < |s.ats| ensures AnswerAt(s.sent + [Msg(id, data)], s.ats[i], s.calls[i]) {
      AnswerStays(s.sent, [Msg(id, data)], s.ats[i], s.calls[i]);
    }
    assert For(s.sent, SERVICE_ID_FIRST) + [] == For(s.sent, SERVICE_ID_FIRST);
  }

  /** Sending a new answer; t is s with the exchange already noted. */
  lemma NewAnswer(s: Served, t: Served, own: seq<Msg>, x: Exchange)
    requires AnswersSent(s, own) && t.sent == s.sent && t.calls == s.calls + [x] && t.ats == s.ats + [|s.sent|]
    ensures AnswersSent(SendAll(t, AnswerBytes(x.answer)), own)
  {
    hide AnswerAt, For, Others, AllAnswers, SendAll, AnswerBytes, Carry;
    var bytes := AnswerBytes(x.answer);
    var more := Carry(SERVICE_ID_FIRST, bytes);
    SendAllFields(t, bytes);
    var r := SendAll(t, bytes);
    SplitAppend(s.sent, more, SERVICE_ID_FIRST);
    ForCarry(SERVICE_ID_FIRST, bytes);
    AnswersMore(s.calls, x);
    NewAnswerAt(s.sent, x);
    forall i | 0 <= i < |r.ats| ensures AnswerAt(r.sent, r.ats[i], r.calls[i]) {
      if i < |s.ats| { AnswerStays(s.sent, more, s.ats[i], s.calls[i]); }
    }
    assert own + [] == own;
  }

  lemma NewAnswerAt(sent: seq<Msg>, x: Exchange)
    ensures AnswerAt(sent + Carry(SERVICE_ID_FIRST, AnswerBytes(x.answer)), |sent|, x)
  {
  }

  /** How reading a byte changes what the answers are about. */
  lemma TakeCalls(rfs: int, server: Server, s: Served, ev: Event, a: Step)
    ensures var t := TakeByte(rfs, server, s, ev, a);
            && t.sent == s.sent
            && ((t.calls == s.calls && t.ats == s.ats)
                || (|t.calls| == |s.calls| + 1 && t.calls == s.calls + [t.calls[|s.calls|]] &&
                    t.ats == s.ats + [|s.sent|]))
  {
    hide Feed;
  }

  lemma AnswersOne(rfs: int, server: Server, s: Served, ev: Event, own: seq<Msg>)
    requires EndOk(s.end) && AnswersSent(s, own) && s.status == GoesOn && (ev.Send? ==> ev.id != SERVICE_ID_FIRST)
    ensures AnswersSent(ServeOne(rfs, server, s, ev), own + SendOf(ev))
  {
    hide AnswersSent, SendAll;
    if ev.Send? {
      OwnSend(s, own, ev.id, ev.data);
    } else {
      var a := EventStep(Host, s.end, ev);
      var t := TakeByte(rfs, server, s, ev, a);
      TakeCalls(rfs, server, s, ev, a);
      hide TakeByte, EventStep;
      assert own + [] == own;
      if |t.calls| == |s.calls| {
        AnswersSame(s, t, own);
        SendNone(t);
      } else {
        NewAnswer(s, t, own, t.calls[|s.calls|]);
      }
    }
  }

  lemma SendNone(t: Served)
    ensures SendAll(t, []) == t
  {
  }

  lemma AnswersSame(s: Served, t: Served, own: seq<Msg>)
    requires AnswersSent(s, own) && t.sent == s.sent && t.calls == s.calls && t.ats == s.ats
    ensures AnswersSent(t, own)
  {
  }

  lemma {:induction false} AnswersSoFar(rfs: int, server: Server, e: End, fr: Framing, tr: seq<Event>)
    requires EndOk(e) && (forall i | 0 <= i < |tr| :: tr[i].Send? ==> tr[i].id != SERVICE_ID_FIRST)
    requires ServeAll(rfs, server, Initial(e, fr), tr).status == GoesOn
    ensures AnswersSent(ServeAll(rfs, server, Initial(e, fr), tr), SentBy(tr))
    decreases |tr|
  {
    hide AnswersSent, ServeOne, ServeAll, SentBy;
    if tr == [] {
      NothingSent(rfs, server, e, fr);
    } else {
      var n := |tr| - 1;
      var front, ev := tr[..n], tr[n];
      var s := ServeAll(rfs, server, Initial(e, fr), front);
      assert tr == front + [ev] && tr[..n + 1] == tr;
      ServeOneMore(rfs, server, Initial(e, fr), tr, n);
      GoneOn(rfs, server, s, ev);
      AnswersSoFar(rfs, server, e, fr, front);
      AnswersOne(rfs, server, s, ev, SentBy(front));
      SentByAppend(front, [ev]);
      OneEvent(ev);
    }
  }

  lemma NothingSent(rfs: int, server: Server, e: End, fr: Framing)
    requires EndOk(e)
    ensures AnswersSent(ServeAll(rfs, server, Initial(e, fr), []), SentBy([]))
  {
  }

  /** In every run that goes on, every answer goes out whole on the first service, and nothing else does. */
  lemma AllAnswersSent(rfs: int, server: Server, e: End, fr: Framing, tr: seq<Event>)
    requires EndOk(e) && (forall i | 0 <= i < |tr| :: tr[i].Send? ==> tr[i].id != SERVICE_ID_FIRST)
    requires ServeAll(rfs, server, Initial(e, fr), tr).status == GoesOn
    ensures AnswersSent(ServeAll(rfs, server, Initial(e, fr), tr), SentBy(tr))
    ensures var r := ServeAll(rfs, server, Initial(e, fr), tr);
            WholePackets(r.sent, r.ats, r.calls) && OnlyPackets(r.sent, r.calls)
  {
    hide AnswersSent, ServeAll, SentBy, WholePackets, OnlyPackets;
    AnswersSoFar(rfs, server, e, fr, tr);
    PacketsSent(ServeAll(rfs, server, Initial(e, fr), tr), SentBy(tr));
  }

  lemma GoneOn(rfs: int, server: Server, s: Served, ev: Event)
    requires EndOk(s.end) && ServeOne(rfs, server, s, ev).status == GoesOn
    ensures s.status == GoesOn
  {
  }

  /* ---- What happened, as events of the protocol ---- */

  lemma {:induction false} AnswerWire(bytes: seq<Byte>)
    ensures WireOf(AnswerEvents(bytes)) == []
    decreases |bytes|
  {
    if bytes != [] {
      assert AnswerEvents(bytes)[1..] == AnswerEvents(bytes[1..]);
      AnswerWire(bytes[1..]);
    }
  }

  /** The turns after one more event: the event, and the answer's sends. */
  lemma TurnsOne(rfs: int, server: Server, s: Served, ev: Event) returns (bytes: seq<Byte>)
    requires EndOk(s.end) && s.status == GoesOn
    ensures ServeOne(rfs, server, s, ev).turns == s.turns + [ev] + AnswerEvents(bytes)
  {
    hide SendAll;
    if ev.Send? {
      bytes := [];
      assert s.turns + [ev] + AnswerEvents([]) == s.turns + [ev];
    } else {
      var a := EventStep(Host, s.end, ev);
      var t := TakeByte(rfs, server, s, ev, a);
      TakeFields(rfs, server, s, ev, a);
      hide TakeByte, EventStep;
      bytes := ToSend(s, t);
      SendAllFields(t, bytes);
    }
  }

  /** The wire traffic of the turns is that of the first j events, all of them while the run goes on. */
  lemma {:induction false} TurnsWire(rfs: int, server: Server, e: End, fr: Framing, tr: seq<Event>) returns (j: nat)
    requires EndOk(e)
    ensures var r := ServeAll(rfs, server, Initial(e, fr), tr);
            && j <= |tr| && WireOf(r.turns) == WireOf(tr[..j]) && (r.status == GoesOn ==> j == |tr|)
            && ((forall i | 0 <= i < |tr| :: !tr[i].Request?) ==> forall i | 0 <= i < |r.turns| :: !r.turns[i].Request?)
    decreases |tr|
  {
    hide ServeOne, WireOf;
    if tr == [] {
      j := 0;
      assert tr[..0] == [];
    } else {
      var front, ev := tr[..|tr| - 1], tr[|tr| - 1];
      var s := ServeAll(rfs, server, Initial(e, fr), front);
      j := TurnsWire(rfs, server, e, fr, front);
      assert tr[..j] == front[..j] && forall i | 0 <= i < |front| :: front[i] == tr[i];
      if s.status == GoesOn {
        var bytes := TurnsOne(rfs, server, s, ev);
        WireAppend(s.turns, [ev]);
        WireAppend(s.turns + [ev], AnswerEvents(bytes));
        AnswerWire(bytes);
        assert front[..|front|] == front;
        WireAppend(front, [ev]);
        assert tr[..|tr|] == front + [ev];
        j := |tr|;
      } else {
        PlainEnd(rfs, server, s, ev);
      }
    }
  }

  lemma PlainEnd(rfs: int, server: Server, s: Served, ev: Event)
    requires EndOk(s.end) && s.status != GoesOn
    ensures ServeOne(rfs, server, s, ev) == s
  {
  }

  /** What could be sent again after some events. */
  ghost function LastAfter(last: int, tr: seq<Event>): int
    decreases |tr|
  {
    if tr == [] then last
    else LastAfter(match tr[0] case Wire(_) => last case Request => -1 case Send(_, data) => LastOf(data), tr[1..])
  }

  lemma {:induction false} AnswerableAppend(last: int, a: seq<Event>, b: seq<Event>)
    ensures Answerable(last, a + b) <==> Answerable(last, a) && Answerable(LastAfter(last, a), b)
    ensures LastAfter(last, a + b) == LastAfter(LastAfter(last, a), b)
    decreases |a|
  {
    if a == [] {
      assert a + b == b;
    } else {
      assert (a + b)[1..] == a[1..] + b && (a + b)[0] == a[0];
      AnswerableAppend(match a[0] case Wire(_) => last case Request => -1 case Send(_, data) => LastOf(data), a[1..],
          b);
    }
  }

  lemma {:induction false} AnswersAnswerable(last: int, bytes: seq<Byte>)
    ensures Answerable(last, AnswerEvents(bytes)) && (last != -1 ==> LastAfter(last, AnswerEvents(bytes)) != -1)
    decreases |bytes|
  {
    if bytes != [] {
      assert AnswerEvents(bytes)[1..] == AnswerEvents(bytes[1..]);
      AnswersAnswerable(LastOf(bytes[0]), bytes[1..]);
    }
  }

  lemma OneAnswerable(last: int, last': int, ev: Event)
    requires last != -1 ==> last' != -1
    ensures Answerable(last, [ev]) ==> Answerable(last', [ev])
    ensures LastAfter(last, [ev]) != -1 ==> LastAfter(last', [ev]) != -1
  {
  }

  /** Requests that can be answered without counting the server's answers can be answered with them. */
  lemma {:induction false} StillAnswerable(rfs: int, server: Server, e: End, fr: Framing, tr: seq<Event>)
    requires EndOk(e) && Answerable(e.last, tr)
    ensures var r := ServeAll(rfs, server, Initial(e, fr), tr);
            Answerable(e.last, r.turns) && (r.status == GoesOn && LastAfter(e.last, tr) != -1 ==>
                LastAfter(e.last, r.turns) != -1)
    decreases |tr|
  {
    if tr != [] {
      hide ServeOne, Answerable, LastAfter;
      var front, ev := tr[..|tr| - 1], tr[|tr| - 1];
      var s := ServeAll(rfs, server, Initial(e, fr), front);
      assert tr == front + [ev];
      AnswerableAppend(e.last, front, [ev]);
      StillAnswerable(rfs, server, e, fr, front);
      if s.status == GoesOn {
        var bytes := TurnsOne(rfs, server, s, ev);
        OneAnswerable(LastAfter(e.last, front), LastAfter(e.last, s.turns), ev);
        AnswerableAppend(e.last, s.turns, [ev]);
        AnswerableAppend(e.last, s.turns + [ev], AnswerEvents(bytes));
        AnswersAnswerable(LastAfter(e.last, s.turns + [ev]), bytes);
      } else {
        PlainEnd(rfs, server, s, ev);
      }
    }
  }

  /* ---- The theorem ---- */

  lemma {:induction false} CleanPrefix(n: nat, sid: int, esc: bool, a: seq<Byte>, b: seq<Byte>)
    requires Clean(n, sid, esc, a + b)
    ensures Clean(n, sid, esc, a) && exists msgs :: Decode(n, sid, esc, a + b) == Decode(n, sid, esc, a) + msgs
  {
    DecodeAppend(n, sid, esc, a, b);
  }

  /**
    A run over clean traffic, with requests that can be answered, never ends in a protocol error, and decodes that
    traffic.
   */
  lemma NoProtocolError(rfs: int, server: Server, e: End, fr: Framing, tr: seq<Event>) returns (j: nat)
    requires EndOk(e) && Clean(8, e.sidIn, e.esc, WireOf(tr))
    requires Answerable(e.last, ServeAll(rfs, server, Initial(e, fr), tr).turns)
    ensures var r := ServeAll(rfs, server, Initial(e, fr), tr);
            && r.status != ProtocolError && j <= |tr| && (r.status == GoesOn ==> j == |tr|)
            && r.got == Decode(8, e.sidIn, e.esc, WireOf(tr[..j])) && r.got <= Decode(8, e.sidIn, e.esc, WireOf(tr))
  {
    hide Run, Decode, Clean, Answerable, WireOf, ServeAll;
    var r := ServeAll(rfs, server, Initial(e, fr), tr);
    j := TurnsWire(rfs, server, e, fr, tr);
    assert tr == tr[..j] + tr[j..];
    WireAppend(tr[..j], tr[j..]);
    CleanPrefix(8, e.sidIn, e.esc, WireOf(tr[..j]), WireOf(tr[j..]));
    LoopConsistent(rfs, server, e, fr, tr);
    RunDecodes(Host, e, r.turns);
  }

  lemma {:induction false} SplitPrefix(a: seq<Msg>, b: seq<Msg>, sid: int)
    requires a <= b
    ensures exists rest :: For(b, sid) == For(a, sid) + rest
  {
    assert b == a + b[|a|..];
    SplitAppend(a, b[|a|..], sid);
  }

  /**
    Files over the multiplexer.  A device sends well-formed requests, each of which fits the server's buffer, on the
    first service, and anything else on the other services, in any mix; the host's ports send as they like, and the
    device may ask for the last byte again whenever there is one.  Then the run never ends: the ports get exactly the
    messages of the other services; the server is called once for each request, with the request at the start of its
    buffer and the rest as the last answer left it; and every answer goes out whole.  Without requests to send again
    the wire carries the encoding of the answers and of the ports' bytes, and nothing else.
   */
  lemma FilesServed(server: Server, e: End, buf: seq<Byte>, tr: seq<Event>, sid: int, msgs: seq<Msg>,
      packets: seq<seq<Byte>>)
    requires EndOk(e) && !e.esc && MsgsOk(8, msgs) && (sid == e.sidIn || !IsSid(8, sid)) &&
        WireOf(tr) == EncodeAll(sid, msgs)
    requires For(msgs, SERVICE_ID_FIRST) == Joined(packets) && PacketsOk(packets, |buf|) && ServerOk(server, |buf|)
    requires forall i | 0 <= i < |tr| :: tr[i].Send? ==> tr[i].id != SERVICE_ID_FIRST
    requires Answerable(e.last, ServeAll(SERVICE_ID_FIRST, server, Initial(e, Start(buf)), tr).turns)
    ensures var r := ServeAll(SERVICE_ID_FIRST, server, Initial(e, Start(buf)), tr);
            && r.status == GoesOn && r.ports == Others(msgs, SERVICE_ID_FIRST)
            && ExchangesFor(server, buf, packets, r.calls) && r.framing == Start(LastBuffer(buf, r.calls))
            && AnswersSent(r, SentBy(tr)) && WholePackets(r.sent, r.ats, r.calls) && OnlyPackets(r.sent, r.calls)
            && ((forall i | 0 <= i < |tr| :: !tr[i].Request?) ==>
                  (forall i | 0 <= i < |r.sent| :: 0 <= r.sent[i].id < 256) && r.wire == EncodeAll(e.sidOut, r.sent))
  {
    hide Run, Decode, Clean, Answerable, WireOf, ServeAll, For, Others, EncodeAll, Joined, ServeBytes, AnswersSent,
        SentBy, ExchangesFor, WholePackets, OnlyPackets;
    var rfs, fr := SERVICE_ID_FIRST, Start(buf);
    var r := ServeAll(rfs, server, Initial(e, fr), tr);
    DecodeEncoded(8, sid, e.sidIn, msgs);
    var j := NoProtocolError(rfs, server, e, fr, tr);
    var xs := PacketsServed(server, buf, packets);
    LoopConsistent(rfs, server, e, fr, tr);
    SplitPrefix(r.got, msgs, rfs);
    var rest :| For(msgs, rfs) == For(r.got, rfs) + rest;
    WellBefore(server, Framed(fr, [], true), For(r.got, rfs), rest);
    assert r.status == GoesOn;
    assert tr[..|tr|] == tr;
    AllAnswersSent(rfs, server, e, fr, tr);
    if forall i | 0 <= i < |tr| :: !tr[i].Request? {
      var j' := TurnsWire(rfs, server, e, fr, tr);
      SendsEncode(Host, e, r.turns);
    }
  }
}
