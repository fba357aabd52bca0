/**
  The host's end: one endless loop that serves the wire, the serial ports of the services,
  and the remote file server, whose requests and answers share one buffer.
 */
module MuxHost {
  import opened Octets
  import opened Mux
  import opened Rpc
  import opened RfsFramer
  import opened MuxFiles

  /** Before a turn of the loop: how much of an answer is still to be sent, and the framer with its buffer. */
  datatype Snapshot = Snapshot(pending: nat, framing: Framing)

  class Loop {
    /** SERMUX_SERVICE_ID_FIRST in RFSMUX mode, else -1. */
    const rfsServiceId: int
    var serviceIdIn: int
    var gotEsc: bool
    var serviceIdOut: int
    var prevSent: int
    /** Bytes put on the wire, and bytes written to the services' serial ports. */
    var wire: seq<Byte>
    var ports: seq<Msg>
    /** The framer, with the buffer that requests and answers share. */
    var state: ReadState
    var readLen: nat
    var expectedLen: int
    var responseFlag: bool
    const buffer: array<Byte>
    /** The part of the answer not sent yet. */
    var rfsSize: nat
    var rfsPtr: nat
    /** The server's exchanges so far, on whose number its behaviour may depend. */
    var calls: seq<Exchange>
    /** What else has happened so far. */
    ghost var got: seq<Msg>
    ghost var sent: seq<Msg>
    ghost var ats: seq<nat>
    ghost var turns: seq<Event>

    ghost function Mux(): End
      reads this
    {
      End(serviceIdIn, gotEsc, serviceIdOut, prevSent)
    }

    ghost function Frame(): Framing
      reads this, buffer
    {
      Framing(state, readLen, expectedLen, responseFlag, buffer[..])
    }

    /** The run so far. */
    ghost function Now(status: Status): Served
      reads this, buffer
    {
      Served(Mux(), Frame(), wire, got, ports, sent, calls, ats, turns, status)
    }

    /** What is left of the answer. */
    ghost function Pending(): (bytes: seq<Byte>)
      requires rfsPtr + rfsSize <= buffer.Length
      reads this, buffer
      ensures |bytes| == rfsSize
    {
      buffer[rfsPtr..rfsPtr + rfsSize]
    }

    ghost predicate Valid()
      reads this
    {
      && EndOk(Mux()) && rfsPtr + rfsSize <= buffer.Length && buffer.Length >= START_OFFSET
      && (rfsServiceId == -1 || rfsServiceId == SERVICE_ID_FIRST) && !responseFlag
    }

    /** The loop before its first turn; rfs says whether the host serves files too. */
    constructor (rfs: bool, buffer: array<Byte>)
      requires buffer.Length >= START_OFFSET
      ensures Valid() && this.buffer == buffer && rfsSize == 0
      ensures Now(GoesOn) == Initial(RESET, Start(buffer[..]))
      ensures rfsServiceId == (if rfs then SERVICE_ID_FIRST as int else -1)
    {
      rfsServiceId := if rfs then SERVICE_ID_FIRST as int else -1;
      serviceIdIn, gotEsc, serviceIdOut, prevSent, wire, ports := -1, false, -1, -1, [], [];
      state, readLen, expectedLen, responseFlag := ReadLength, 0, 0, false;
      this.buffer, rfsSize, rfsPtr := buffer, 0, 0;
      got, sent, calls, ats, turns := [], [], [], [], [];
    }

    /** A byte for a service goes on the wire, escaped if needed. */
    method PutByte(id: Byte, c: Byte)
      requires EndOk(Mux())
      modifies this`wire, this`prevSent, this`serviceIdOut
      ensures var s := SendStep(old(Mux()), id, c); Mux() == s.end && wire == old(wire) + s.out && EndOk(Mux())
    {
      prevSent := c;
      if id != serviceIdOut {
        wire := wire + [id];
      }
      if c == ESCAPE_CHAR || c == FORCE_SID_CHAR || (c >= SERVICE_ID_FIRST && c <= SERVICE_ID_LAST) {
        wire := wire + [ESCAPE_CHAR];
        wire := wire + [Flip(c)];
        prevSent := ESC_MASK + Flip(c);
      } else {
        wire := wire + [c];
      }
      serviceIdOut := id;
    }

    method SendByte(id: Byte, c: Byte)
      requires Valid()
      modifies this`wire, this`prevSent, this`serviceIdOut, this`sent, this`turns
      ensures Valid() && Now(GoesOn) == SendOne(old(Now(GoesOn)), id, c)
    {
      hide SendStep;
      PutByte(id, c);
      sent, turns := sent + [Msg(id, c)], turns + [Send(id, c)];
    }

    /** rfs_mem_read_request_packet; a byte that would be stored past the buffer is not stored (fits). */
    method FeedFramer(c: Byte) returns (fits: bool)
      requires buffer.Length >= START_OFFSET
      modifies this`state, this`readLen, this`expectedLen, this`responseFlag, buffer
      ensures fits == HasRoom(old(Frame()))
      ensures Frame() == if fits then Feed(old(Frame()), c) else old(Frame())
    {
      ghost var b := buffer[..];
      fits := true;
      match state
      case ReadLength =>
        if readLen >= buffer.Length {
          return false;
        }
        buffer[readLen] := c;
        assert buffer[..] == b[readLen := c];
        readLen := readLen + 1;
        if readLen == START_OFFSET {
          readLen := 0;
          HeaderOf(buffer[..]);
          if buffer[0] != TYPE_PKT_SIZE || buffer[1] != TYPE_INT_16 {
            state := RequestDone;
          } else {
            var temp16 := Size16(buffer[2], buffer[3]);
            state := ReadRequest;
            expectedLen := temp16 - START_OFFSET;
          }
        }
      case ReadRequest =>
        if START_OFFSET + readLen >= buffer.Length {
          return false;
        }
        buffer[START_OFFSET + readLen] := c;
        assert buffer[..] == b[START_OFFSET + readLen := c];
        readLen := readLen + 1;
        if readLen == expectedLen {
          state := RequestDone;
          responseFlag := true;
        }
      case RequestDone =>
    }

    /** The server's work in the buffer. */
    method Execute(answer: seq<Byte>)
      requires |answer| == buffer.Length
      modifies buffer
      ensures buffer[..] == answer
    {
      for i := 0 to buffer.Length
        invariant forall x | 0 <= x < i :: buffer[x] == answer[x]
      {
        buffer[i] := answer[i];
      }
    }

    /**
      rfs_mem_write_response and rfs_mem_start_request: the header of the server's answer says how much of it to send.
     */
    method Answer(server: Server)
      requires ServerOk(server, buffer.Length) && buffer.Length >= START_OFFSET && rfsSize == 0 &&
          rfsPtr <= buffer.Length
      modifies this`state, this`readLen, this`expectedLen, this`responseFlag, this`rfsSize, this`rfsPtr, this`calls,
          this`ats, buffer
      ensures var answer := server(old(|calls|), old(buffer[..]));
              && Frame() == Start(answer) && rfsPtr + rfsSize <= buffer.Length && Pending() == AnswerBytes(answer)
              && (forall w | AnswerIs(answer, w) :: Pending() == w)
              && calls == old(calls) + [Exchange(old(buffer[..]), answer)] && ats == old(ats) + [|sent|]
    {
      hide AnswerSize, Size16, AnswerIs;
      var request := buffer[..];
      var answer := server(|calls|, request);
      AnswerHeader(answer);
      forall w | AnswerIs(answer, w) ensures AnswerBytes(answer) == w { AnswerSent(answer, w); }
      Execute(answer);
      if buffer[0] == TYPE_PKT_SIZE && buffer[1] == TYPE_INT_16 {
        rfsSize := Size16(buffer[2], buffer[3]);
        rfsPtr := 0;
      } else {
        rfsSize := 0;
      }
      state, readLen, expectedLen, responseFlag := ReadLength, 0, 0, false;
      calls, ats := calls + [Exchange(request, answer)], ats + [|sent|];
    }

    /** A data byte for the service that is being received: for the server's framer, or for a port. */
    method Deliver(c: Byte, server: Server) returns (status: Status)
      requires Valid() && rfsSize == 0 && ServerOk(server, buffer.Length)
      modifies this`ports, this`state, this`readLen, this`expectedLen, this`responseFlag, this`rfsSize, this`rfsPtr,
               this`calls, this`ats, buffer
      ensures Valid()
      ensures serviceIdIn != rfsServiceId ==>
        Now(status) == old(Now(GoesOn)).(ports := old(ports) + [Msg(serviceIdIn, c)]) && rfsSize == 0
      ensures serviceIdIn == rfsServiceId ==>
        Now(status) == FileByte(server, old(Now(GoesOn)), c) && Pending() == ToSend(old(Now(GoesOn)), Now(status))
    {
      hide Feed, AnswerBytes, HasRoom, AnswerIs;
      status := GoesOn;
      if serviceIdIn == rfsServiceId {
        var fits := FeedFramer(c);
        if !fits {
          status := OutOfBounds;
        } else if responseFlag {
          Answer(server);
        }
      } else {
        ports := ports + [Msg(serviceIdIn, c)];
      }
    }

    /** The protocol's part of a byte from the wire; data is the byte to deliver, or -1.  False ends the program. */
    method Receive(c: Byte) returns (ok: bool, data: int)
      requires EndOk(Mux())
      modifies this`serviceIdIn, this`gotEsc, this`prevSent, this`wire
      ensures var a := HostRx(old(Mux()), c);
              && ok == a.ok && Mux() == a.end && wire == old(wire) + a.out && -1 <= data < 256 && EndOk(Mux())
              && a.got == (if data < 0 then [] else [Msg(serviceIdIn, data)])
              && (!ok ==> data == -1)
    {
      ok, data := true, -1;
      if c != ESCAPE_CHAR {
        if c >= SERVICE_ID_FIRST && c <= SERVICE_ID_LAST {
          serviceIdIn := c;
        } else if c == FORCE_SID_CHAR {
          if prevSent == -1 {
            return false, -1;
          }
          wire := wire + [serviceIdOut];
          if prevSent >= ESC_MASK {
            wire := wire + [ESCAPE_CHAR];
          }
          wire := wire + [prevSent % 256];
          prevSent := -1;
        } else {
          var d := c;
          if gotEsc {
            d := Flip(c);
            if d != ESCAPE_CHAR && d != FORCE_SID_CHAR && (d < SERVICE_ID_FIRST || d > SERVICE_ID_LAST) {
              return false, -1;
            }
            gotEsc := false;
          }
          if serviceIdIn == -1 {
            wire := wire + [FORCE_SID_CHAR];
          } else {
            data := d;
          }
        }
      } else {
        gotEsc := true;
      }
    }

    /** One turn of the loop on a byte from the wire; ev is the byte as an event of the protocol. */
    method WireByte(c: Byte, server: Server, ghost ev: Event) returns (status: Status)
      requires Valid() && rfsSize == 0 && ServerOk(server, buffer.Length)
      modifies this, buffer
      ensures Valid()
      ensures var s := old(Now(GoesOn)); var t := TakeByte(rfsServiceId, server, s, ev, HostRx(s.end, c));
              Now(status) == t && Pending() == ToSend(s, t)
    {
      hide Feed, AnswerBytes, HasRoom, FileByte, HostRx;
      ghost var s := Now(GoesOn);
      HostStops(s.end, c);
      var ok, data := Receive(c);
      turns := turns + [ev];
      if !ok {
        return ProtocolError;
      }
      status := GoesOn;
      if data >= 0 {
        got := got + [Msg(serviceIdIn, data)];
        status := Deliver(data, server);
      }
    }

    /**
      One turn of the loop on a byte from the serial port of a service; in file server mode the first service is the
      server's.
     */
    method PortByte(selidx: nat, c: Byte)
      requires Valid() && rfsSize == 0 && 1 <= selidx <= MAX_PORTS
      modifies this`wire, this`prevSent, this`serviceIdOut, this`sent, this`turns
      ensures Valid()
      ensures Now(GoesOn) == SendOne(old(Now(GoesOn)), PortId(rfsServiceId, selidx), c)
    {
      var serviceOffset := if rfsServiceId == -1 then 0 else 1;
      SendByte(SERVICE_ID_FIRST + selidx - 1 + serviceOffset, c);
    }

    /** One turn of the loop while an answer is waiting: its next byte goes out, and nothing is read. */
    method AnswerByte()
      requires Valid() && rfsSize > 0
      modifies this`wire, this`prevSent, this`serviceIdOut, this`sent, this`turns, this`rfsSize, this`rfsPtr
      ensures Valid() && rfsSize == old(rfsSize) - 1 && Pending() == old(Pending())[1..]
      ensures Now(GoesOn) == SendOne(old(Now(GoesOn)), SERVICE_ID_FIRST, old(Pending())[0])
    {
      var c := buffer[rfsPtr];
      rfsPtr := rfsPtr + 1;
      rfsSize := rfsSize - 1;
      SendByte(SERVICE_ID_FIRST, c);
    }

    /** One turn of the loop: the rest of an answer goes first; with nothing left of it, the next event is taken. */
    method Turn(ev: Event, server: Server) returns (status: Status, taken: bool)
      requires Valid() && ServerOk(server, buffer.Length)
      requires ev.Send? ==> IsPort(rfsServiceId, ev.id)
      modifies this, buffer
      ensures Valid() && taken == (old(rfsSize) == 0)
      // nothing is read, and neither buffer nor framer change, before the answer is out
      ensures !taken ==>
          status == GoesOn && Frame() == old(Frame()) && rfsSize == old(rfsSize) - 1 && ports == old(ports)
      ensures SendAll(Now(status), Pending()) ==
                if taken then ServeOne(rfsServiceId, server, old(Now(GoesOn)), ev)
                    else SendAll(old(Now(GoesOn)), old(Pending()))
      ensures status != GoesOn ==> Pending() == []
    {
      hide Feed, AnswerBytes, HasRoom, FileByte, HostRx, SendOne;
      ghost var s := Now(GoesOn);
      status, taken := GoesOn, false;
      if rfsSize > 0 {
        AnswerByte();
      } else {
        taken := true;
        match ev {
          case Wire(c) => status := WireByte(c, server, ev);
          case Request => status := WireByte(FORCE_SID_CHAR, server, ev);
          case Send(id, data) =>
            PortByte(id - SERVICE_ID_FIRST + (if rfsServiceId == -1 then 1 else 0), data);
            SendNone(Now(GoesOn));
        }
        if !ev.Send? {
          EndedTake(rfsServiceId, server, s, ev, HostRx(s.end, if ev.Wire? then ev.c else FORCE_SID_CHAR));
        }
      }
    }

    /**
      The loop over any events, in both modes: it does what ServeAll says, with every answer sent before the next
      event is looked at.  history has a snapshot before every turn, and one at the end.
     */
    method Serve(tr: seq<Event>, server: Server) returns (status: Status, ghost history: seq<Snapshot>)
      requires Valid() && rfsSize == 0 && ServerOk(server, buffer.Length)
      requires forall i | 0 <= i < |tr| :: tr[i].Send? ==> IsPort(rfsServiceId, tr[i].id)
      modifies this, buffer
      ensures Valid() && Now(status) == ServeAll(rfsServiceId, server, old(Now(GoesOn)), tr)
      ensures status == GoesOn ==> rfsSize == 0
      ensures history != [] && history[0] == old(Snapshot(rfsSize, Frame())) &&
          history[|history| - 1] == Snapshot(rfsSize, Frame())
      ensures forall k | 0 < k < |history| && history[k - 1].pending > 0 :: Drained(history[k - 1], history[k])
    {
      hide ServeOne, ServeAll, SendAll;
      ghost var s0, i := Now(GoesOn), 0;
      status, history := GoesOn, [Snapshot(rfsSize, Frame())];
      var rest := tr;
      assert tr[..0] == [];
      ServeNothing(rfsServiceId, server, s0);
      SendNone(s0);
      while rfsSize > 0 || rest != []
        invariant Valid() && status == GoesOn && i <= |tr| && rest == tr[i..]
        invariant SendAll(Now(GoesOn), Pending()) == ServeAll(rfsServiceId, server, s0, tr[..i])
        invariant history != [] && history[0] == Snapshot(old(rfsSize), s0.framing)
        invariant history[|history| - 1] == Snapshot(rfsSize, Frame())
        invariant forall k | 0 < k < |history| && history[k - 1].pending > 0 :: Drained(history[k - 1], history[k])
        decreases |rest|, rfsSize
      {
        var taken;
        ghost var now := Now(GoesOn);
        if rfsSize == 0 {
          ServeOneMore(rfsServiceId, server, s0, tr, i);
          assert Pending() == [];
          SendNone(now);
        }
        status, taken := Turn(if rest == [] then Request else rest[0], server);
        history := history + [Snapshot(rfsSize, Frame())];
        if taken {
          rest := rest[1..];
          i := i + 1;
        }
        if status != GoesOn {
          SendNone(Now(status));
          Ended(rfsServiceId, server, s0, tr, i);
          return;
        }
      }
      assert Pending() == [] && tr[..|tr|] == tr;
      SendNone(Now(GoesOn));
    }

    /**
      The loop as a file server, from a start with nothing pending: under the conditions of FilesServed it never ends,
      and ports, server and wire see what FilesServed says.
     */
    method ServeFiles(tr: seq<Event>, server: Server, ghost sid: int, ghost msgs: seq<Msg>,
        ghost packets: seq<seq<Byte>>)
      returns (ghost history: seq<Snapshot>)
      requires Valid() && rfsSize == 0 && rfsServiceId == SERVICE_ID_FIRST && ServerOk(server, buffer.Length)
      requires Now(GoesOn) == Initial(Mux(), Start(buffer[..]))
      requires forall i | 0 <= i < |tr| :: tr[i].Send? ==> IsPort(SERVICE_ID_FIRST, tr[i].id)
      requires !gotEsc && MsgsOk(8, msgs) && (sid == serviceIdIn || !IsSid(8, sid)) &&
          WireOf(tr) == EncodeAll(sid, msgs)
      requires For(msgs, SERVICE_ID_FIRST) == Joined(packets) && PacketsOk(packets, buffer.Length)
      requires Answerable(prevSent, ServeAll(SERVICE_ID_FIRST, server, Now(GoesOn), tr).turns)
      modifies this, buffer
      ensures Valid() && rfsSize == 0 && ports == Others(msgs, SERVICE_ID_FIRST)
      ensures ExchangesFor(server, old(buffer[..]), packets, calls) &&
          Frame() == Start(LastBuffer(old(buffer[..]), calls))
      ensures AnswersSent(Now(GoesOn), SentBy(tr))
      ensures WholePackets(sent, ats, calls) && OnlyPackets(sent, calls)
      ensures (forall i | 0 <= i < |tr| :: !tr[i].Request?) ==>
        (forall i | 0 <= i < |sent| :: 0 <= sent[i].id < 256) && wire == EncodeAll(old(serviceIdOut), sent)
      ensures forall k | 0 < k < |history| && history[k - 1].pending > 0 :: Drained(history[k - 1], history[k])
    {
      hide ServeAll, For, Others, Joined, EncodeAll, WireOf, ExchangesFor, AnswersSent, Answerable, SentBy,
          WholePackets, OnlyPackets;
      FilesServed(server, Mux(), buffer[..], tr, sid, msgs, packets);
      var status;
      status, history := Serve(tr, server);
    }
  }

  /** A turn in which a byte of an answer goes out. */
  ghost predicate Drained(a: Snapshot, b: Snapshot) {
    b.framing == a.framing && b.pending == a.pending - 1
  }

  /** A program that ends has changed nothing in its state. */
  lemma HostStops(e: End, c: Byte)
    requires EndOk(e)
    ensures !HostRx(e, c).ok ==> HostRx(e, c) == Step(e, [], [], false)
  {
  }

  lemma EndedTake(rfs: int, server: Server, s: Served, ev: Event, a: Step)
    requires s.status == GoesOn
    ensures var t := TakeByte(rfs, server, s, ev, a); t.status != GoesOn ==> ToSend(s, t) == []
  {
  }

  lemma ServeNothing(rfs: int, server: Server, s: Served)
    requires EndOk(s.end)
    ensures ServeAll(rfs, server, s, []) == s
  {
  }
}
