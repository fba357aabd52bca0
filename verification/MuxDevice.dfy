/** The device's end of the multiplexer, byte by byte, against the step functions of the protocol. */
module MuxDevice {
  import opened Octets
  import opened Mux

  class Uart {
    /** SERMUX_NUM_VUART. */
    const n: nat
    var serviceIdIn: int
    var gotEsc: bool
    var serviceIdOut: int
    var lastSent: int
    /** Bytes put on the physical port, and bytes put in the services' buffers. */
    var wire: seq<Byte>
    var delivered: seq<Msg>

    ghost predicate Valid()
      reads this
    {
      n <= 8 && EndOk(State())
    }

    ghost function State(): End
      reads this
    {
      End(serviceIdIn, gotEsc, serviceIdOut, lastSent)
    }

    constructor (n: nat)
      requires n <= 8
      ensures Valid() && this.n == n && State() == End(-1, false, -1, -1) && wire == [] && delivered == []
    {
      this.n, serviceIdIn, gotEsc, serviceIdOut, lastSent, wire, delivered := n, -1, false, -1, -1, [], [];
    }

    /** cmn_rx_handler on the multiplexed port. */
    method RxHandler(c: Byte)
      requires Valid()
      modifies this
      ensures Valid()
      ensures var s := DeviceRx(n, old(State()), c);
              State() == s.end && wire == old(wire) + s.out && delivered == old(delivered) + s.got
    {
      if c != ESCAPE_CHAR {
        if SERVICE_ID_FIRST <= c && c < SERVICE_ID_FIRST + n {
          serviceIdIn := c;
        } else if c == FORCE_SID_CHAR && lastSent != -1 {
          wire := wire + [serviceIdOut];
          if lastSent >= ESC_MASK {
            wire := wire + [ESCAPE_CHAR];
          }
          wire := wire + [lastSent % 256];
          lastSent := -1;
        } else {
          var data := c;
          if gotEsc {
            data := Flip(c);
            gotEsc := false;
          }
          if serviceIdIn == -1 {
            wire := wire + [FORCE_SID_CHAR];
          } else {
            delivered := delivered + [Msg(serviceIdIn, data)];
          }
        }
      } else {
        gotEsc := true;
      }
    }

    /** platform_uart_send for a virtual port. */
    method UartSend(id: nat, data: Byte)
      requires Valid()
      modifies this
      ensures Valid()
      ensures IsSid(n, id) ==> var s := SendStep(old(State()), id, data);
          State() == s.end && wire == old(wire) + s.out && delivered == old(delivered)
      ensures !IsSid(n, id) ==> State() == old(State()) && wire == old(wire) && delivered == old(delivered)
    {
      if id >= SERVICE_ID_FIRST && id < SERVICE_ID_FIRST + n {
        if id != serviceIdOut {
          wire := wire + [id];
        }
        lastSent := data;
        if data == ESCAPE_CHAR || data == FORCE_SID_CHAR || (data >= SERVICE_ID_FIRST && data <= SERVICE_ID_LAST) {
          wire := wire + [ESCAPE_CHAR];
          wire := wire + [Flip(data)];
          lastSent := ESC_MASK + Flip(data);
        } else {
          wire := wire + [data];
        }
        serviceIdOut := id;
      }
    }

    /** A whole run of the device: what it delivers and sends is what the protocol's run says. */
    method Serve(tr: seq<Event>)
      requires Valid() && forall i | 0 <= i < |tr| :: tr[i].Send? ==> IsSid(n, tr[i].id)
      modifies this
      ensures Valid()
      ensures var s := Run(Device(n), old(State()), tr);
              State() == s.end && wire == old(wire) + s.out && delivered == old(delivered) + s.got
    {
      hide Run, DeviceRx, EncodeData, LastOf;
      RunNothing(Device(n), State());
      for i := 0 to |tr|
        invariant Valid()
        invariant var s := Run(Device(n), old(State()), tr[..i]);
                  s.ok && State() == s.end && wire == old(wire) + s.out && delivered == old(delivered) + s.got
      {
        RunOneMore(Device(n), old(State()), tr[..i], tr[i]);
        assert tr[..i + 1] == tr[..i] + [tr[i]];
        DeviceGoesOn(n, State(), tr[i]);
        match tr[i]
        case Wire(c) => RxHandler(c);
        case Request => RxHandler(FORCE_SID_CHAR);
        case Send(id, data) => UartSend(id, data);
      }
      assert tr[..|tr|] == tr;
    }
  }

  lemma DeviceGoesOn(n: nat, e: End, ev: Event)
    requires EndOk(e)
    ensures EventStep(Device(n), e, ev).ok
  {
  }
}
