/**
  The multiplexer when ends lose their service and escape state.  A resend request repairs one
  byte; so an end that waits until its last byte has been delivered loses nothing.
 */
module MuxLoss {
  import opened Octets
  import opened Mux

  /** What is on a wire besides requests to send again. */
  function DataOf(w: seq<Byte>): seq<Byte> {
    if w == [] then [] else (if w[0] == FORCE_SID_CHAR then [] else [w[0]]) + DataOf(w[1..])
  }

  /** The requests on a wire. */
  function Asks(w: seq<Byte>): nat {
    if w == [] then 0 else (if w[0] == FORCE_SID_CHAR then 1 else 0) + Asks(w[1..])
  }

  lemma {:induction false} WireAppend(a: seq<Byte>, b: seq<Byte>)
    ensures DataOf(a + b) == DataOf(a) + DataOf(b) && Asks(a + b) == Asks(a) + Asks(b)
    decreases |a|
  {
    if a == [] {
      assert a + b == b;
    } else {
      WireAppend(a[1..], b);
      assert (a + b)[1..] == a[1..] + b;
    }
  }

  lemma {:induction false} NoAsks(w: seq<Byte>)
    requires FORCE_SID_CHAR !in w
    ensures DataOf(w) == w && Asks(w) == 0
  {
    if w != [] { NoAsks(w[1..]); }
  }

  lemma OneAsk()
    ensures DataOf([FORCE_SID_CHAR]) == [] && Asks([FORCE_SID_CHAR]) == 1 && DataOf([]) == [] && Asks([]) == 0
  {
  }

  /* ---- One direction ---- */

  /** The bytes w on the way make the receiver deliver m. */
  ghost predicate Coming(r: End, w: seq<Byte>, m: Msg) {
    || (w == [m.id] + EncodeData(m.data) && !r.esc)
    || (w == EncodeData(m.data) && r.sidIn == m.id && !r.esc)
    || (Special(m.data) && w == [Flip(m.data)] && r.sidIn == m.id && r.esc)
  }

  /** The bytes w on the way make the receiver ask for m again. */
  ghost predicate Missed(r: End, w: seq<Byte>, m: Msg) {
    r.sidIn == -1 && ((w == EncodeData(m.data) && !r.esc) || (Special(m.data) && w == [Flip(m.data)]))
  }

  /**
    A direction between two ends: nothing is on the way; or the last byte sent is, or its answer; or the receiver has
    asked for it.  w is the data on the way, asks the number of requests on the way back.
   */
  ghost predicate Line(n: nat, s: End, r: End, w: seq<Byte>, asks: nat, sent: seq<Msg>, got: seq<Msg>) {
    if w == [] && asks == 0 then
      sent == got && !r.esc && (r.sidIn == -1 || r.sidIn == s.sidOut)
    else
      && |sent| == |got| + 1 && got == sent[..|got|]
      && var m := sent[|got|];
         && IsSid(n, m.id) && s.sidOut == m.id
         && if asks > 0 then asks == 1 && w == [] && r.sidIn == -1 && !r.esc && s.last == LastOf(m.data)
            else (s.last == LastOf(m.data) && (Coming(r, w, m) || Missed(r, w, m))) || (s.last == -1 && Coming(r, w, m))
  }

  lemma PlainOnWire(id: Byte, data: Byte)
    requires IsSid(8, id)
    ensures FORCE_SID_CHAR !in [id] + EncodeData(data) && FORCE_SID_CHAR !in EncodeData(data)
  {
    if Special(data) { FlipSpecial(data); }
  }

  lemma Sends(n: nat, s: End, r: End, sent: seq<Msg>, got: seq<Msg>, id: Byte, data: Byte)
    requires n <= 8 && IsSid(n, id) && Line(n, s, r, [], 0, sent, got)
    ensures var x := SendStep(s, id, data);
            && DataOf(x.out) == x.out && Asks(x.out) == 0 && EndOk(x.end)
            && Line(n, x.end, r, x.out, 0, sent + [Msg(id, data)], got)
  {
    hide DataOf, Asks, LastOf;
    var x := SendStep(s, id, data);
    PlainOnWire(id, data);
    NoAsks(x.out);
    assert id == s.sidOut ==> x.out == EncodeData(data);
    assert EndOk(x.end) by { LastFits(data); }
    assert x.out != [];
    hide EncodeData;
  }

  lemma LastFits(data: Byte)
    ensures 0 <= LastOf(data) < 0x200
  {
  }

  /** The receiver loses its state; not while an answer is on the way. */
  lemma Loses(n: nat, s: End, r: End, w: seq<Byte>, asks: nat, sent: seq<Msg>, got: seq<Msg>)
    requires n <= 8 && Line(n, s, r, w, asks, sent, got) && (s.last != -1 || w == [])
    ensures Line(n, s, Lost(r), w, asks, sent, got)
  {
  }

  /** The receiver reads the next byte of data. */
  lemma Reads(side: Side, s: End, r: End, w: seq<Byte>, sent: seq<Msg>, got: seq<Msg>)
    requires Services(side) <= 8 && EndOk(r) && w != [] && Line(Services(side), s, r, w, 0, sent, got)
    ensures var x := Rx(side, r, w[0]);
            && x.ok && EndOk(x.end) && x.end.sidOut == r.sidOut && x.end.last == r.last
            && (x.out == [] || x.out == [FORCE_SID_CHAR])
            && Line(Services(side), s, x.end, w[1..], |x.out|, sent, got + x.got)
  {
    var m := sent[|got|];
    if Special(m.data) { FlipSpecial(m.data); }
    assert got + [m] == sent;
    assert w == [m.id] + EncodeData(m.data) ==> w[1..] == EncodeData(m.data);
    assert got + [] == got;
  }

  /** The sender reads a request, and answers. */
  lemma Answers(n: nat, side: Side, s: End, r: End, w: seq<Byte>, asks: nat, sent: seq<Msg>, got: seq<Msg>)
    requires n <= 8 && Services(side) <= 8 && EndOk(s) && asks > 0 && Line(n, s, r, w, asks, sent, got)
    ensures var x := Rx(side, s, FORCE_SID_CHAR);
            && x.ok && x.got == [] && EndOk(x.end) && x.end.sidIn == s.sidIn && x.end.esc == s.esc
            && DataOf(x.out) == x.out && Asks(x.out) == 0
            && asks == 1 && w == [] && Line(n, x.end, r, x.out, 0, sent, got)
  {
    hide DataOf, Asks;
    var m, x := sent[|got|], Rx(side, s, FORCE_SID_CHAR);
    if Special(m.data) { FlipSpecial(m.data); }
    assert x.out == [m.id] + EncodeData(m.data);
    PlainOnWire(m.id, m.data);
    NoAsks(x.out);
  }

  /* ---- Both directions ---- */

  /** What can happen: an end sends or reads as before, or loses its service and escape state. */
  datatype LossyAct = Plain(act: Act) | DeviceLoses | HostLoses

  /** All that an end has sent has been delivered: none of it is on the way, and no request for it. */
  predicate Settled(out: seq<Byte>, back: seq<Byte>) { DataOf(out) == [] && Asks(back) == 0 }

  /** An answer to a request is on the way. */
  predicate Answering(s: End, out: seq<Byte>) { DataOf(out) != [] && s.last == -1 }

  /** An end waits with its next byte until all is settled; and no state is lost while an answer is on the way. */
  function LossyStep(n: nat, s: System, a: LossyAct): System
    requires EndOk(s.device) && EndOk(s.host)
  {
    match a
    case Plain(act) =>
      if act.DeviceSends? && !Settled(s.toHost, s.toDevice) then s
      else if act.HostSends? && !Settled(s.toDevice, s.toHost) then s
      else ActStep(n, s, act)
    case DeviceLoses => if Answering(s.host, s.toDevice) then s else s.(device := Lost(s.device))
    case HostLoses => if Answering(s.device, s.toHost) then s else s.(host := Lost(s.host))
  }

  ghost predicate LossyOk(n: nat, s: System) {
    && n <= 8 && EndOk(s.device) && EndOk(s.host) && s.ok
    && Line(8, s.device, s.host, DataOf(s.toHost), Asks(s.toDevice), s.deviceSent, s.hostGot)
    && Line(n, s.host, s.device, DataOf(s.toDevice), Asks(s.toHost), s.hostSent, s.deviceGot)
  }

  /** Only its receiver's service and escape state, and its sender's service and last byte, matter to a direction. */
  lemma LineSame(n: nat, s: End, r: End, s': End, r': End, w: seq<Byte>, asks: nat, sent: seq<Msg>, got: seq<Msg>)
    requires Line(n, s, r, w, asks, sent, got)
    requires s'.sidOut == s.sidOut && s'.last == s.last && r'.sidIn == r.sidIn && r'.esc == r.esc
    ensures Line(n, s', r', w, asks, sent, got)
  {
  }

  /** The first byte of a wire. */
  lemma WireHead(w: seq<Byte>)
    requires w != []
    ensures w[0] == FORCE_SID_CHAR ==> DataOf(w) == DataOf(w[1..]) && Asks(w) == Asks(w[1..]) + 1
    ensures w[0] != FORCE_SID_CHAR ==>
      DataOf(w) != [] && DataOf(w)[0] == w[0] && DataOf(w)[1..] == DataOf(w[1..]) && Asks(w) == Asks(w[1..])
  {
  }

  /** An end reads the next byte; in and out are the wires to it and from it. */
  lemma ReadKeeps(side: Side, n: nat, e: End, o: End, in_: seq<Byte>, out: seq<Byte>,
                  sentO: seq<Msg>, gotE: seq<Msg>, sentE: seq<Msg>, gotO: seq<Msg>)
    requires n <= 8 && Services(side) <= 8 && EndOk(e) && in_ != []
    requires Line(Services(side), o, e, DataOf(in_), Asks(out), sentO, gotE)
    requires Line(n, e, o, DataOf(out), Asks(in_), sentE, gotO)
    ensures var x := Rx(side, e, in_[0]);
            && x.ok && EndOk(x.end)
            && Line(Services(side), o, x.end, DataOf(in_[1..]), Asks(out + x.out), sentO, gotE + x.got)
            && Line(n, x.end, o, DataOf(out + x.out), Asks(in_[1..]), sentE, gotO)
  {
    hide Line, Rx, DataOf, Asks;
    var x := Rx(side, e, in_[0]);
    WireHead(in_);
    WireAppend(out, x.out);
    OneAsk();
    if in_[0] == FORCE_SID_CHAR {
      Answers(n, side, e, o, DataOf(out), Asks(in_), sentE, gotO);
      assert DataOf(out) + x.out == x.out && gotE + [] == gotE;
      LineSame(Services(side), o, e, o, x.end, DataOf(in_), Asks(out), sentO, gotE);
    } else {
      NotAsked(Services(side), o, e, DataOf(in_), Asks(out), sentO, gotE);
      Reads(side, o, e, DataOf(in_), sentO, gotE);
      assert DataOf(out) + [] == DataOf(out);
      LineSame(n, e, o, x.end, o, DataOf(out), Asks(in_), sentE, gotO);
    }
  }

  lemma NotAsked(n: nat, s: End, r: End, w: seq<Byte>, asks: nat, sent: seq<Msg>, got: seq<Msg>)
    requires Line(n, s, r, w, asks, sent, got) && w != []
    ensures asks == 0
  {
  }

  /** An end sends a byte once all is settled. */
  lemma SendKeeps(n: nat, k: nat, e: End, o: End, in_: seq<Byte>, out: seq<Byte>,
                  sentO: seq<Msg>, gotE: seq<Msg>, sentE: seq<Msg>, gotO: seq<Msg>, id: Byte, data: Byte)
    requires n <= 8 && IsSid(n, id) && Settled(out, in_)
    requires Line(k, o, e, DataOf(in_), Asks(out), sentO, gotE)
    requires Line(n, e, o, DataOf(out), Asks(in_), sentE, gotO)
    ensures var x := SendStep(e, id, data);
            && EndOk(x.end)
            && Line(k, o, x.end, DataOf(in_), Asks(out + x.out), sentO, gotE)
            && Line(n, x.end, o, DataOf(out + x.out), Asks(in_), sentE + [Msg(id, data)], gotO)
  {
    hide Line, DataOf, Asks, EncodeData, LastOf;
    var x := SendStep(e, id, data);
    Sends(n, e, o, sentE, gotO, id, data);
    WireAppend(out, x.out);
    assert DataOf(out) + x.out == x.out;
    LineSame(k, o, e, o, x.end, DataOf(in_), Asks(out), sentO, gotE);
  }

  lemma StepKeeps(n: nat, s: System, a: LossyAct)
    requires LossyOk(n, s)
    ensures LossyOk(n, LossyStep(n, s, a))
  {
    hide Line, DataOf, Asks, DeviceRx, HostRx, SendStep;
    match a
    case DeviceLoses =>
      if !Answering(s.host, s.toDevice) {
        Loses(n, s.host, s.device, DataOf(s.toDevice), Asks(s.toHost), s.hostSent, s.deviceGot);
        LineSame(8, s.device, s.host, Lost(s.device), s.host, DataOf(s.toHost), Asks(s.toDevice), s.deviceSent,
            s.hostGot);
      }
    case HostLoses =>
      if !Answering(s.device, s.toHost) {
        Loses(8, s.device, s.host, DataOf(s.toHost), Asks(s.toDevice), s.deviceSent, s.hostGot);
        LineSame(n, s.host, s.device, Lost(s.host), s.device, DataOf(s.toDevice), Asks(s.toHost), s.hostSent,
            s.deviceGot);
      }
    case Plain(act) =>
      match act
      case DeviceSends(id, data) =>
        if IsSid(n, id) && Settled(s.toHost, s.toDevice) {
          SendKeeps(8, n, s.device, s.host, s.toDevice, s.toHost, s.hostSent, s.deviceGot, s.deviceSent, s.hostGot,
                    id, data);
        }
      case HostSends(id, data) =>
        if IsSid(n, id) && Settled(s.toDevice, s.toHost) {
          SendKeeps(n, 8, s.host, s.device, s.toHost, s.toDevice, s.deviceSent, s.hostGot, s.hostSent, s.deviceGot,
                    id, data);
        }
      case DeviceReads =>
        if s.toDevice != [] {
          ReadKeeps(Device(n), 8, s.device, s.host, s.toDevice, s.toHost, s.hostSent, s.deviceGot, s.deviceSent,
                    s.hostGot);
        }
      case HostReads =>
        if s.toHost != [] {
          ReadKeeps(Host, n, s.host, s.device, s.toHost, s.toDevice, s.deviceSent, s.hostGot, s.hostSent, s.deviceGot);
        }
  }

  /** A schedule, act by act. */
  ghost predicate LossyReaches(n: nat, s: System, acts: seq<LossyAct>, s': System)
    decreases |acts|
  {
    if acts == [] then s' == s
    else EndOk(s.device) && EndOk(s.host) && LossyReaches(n, LossyStep(n, s, acts[0]), acts[1..], s')
  }

  lemma {:induction false} LossyReachesOk(n: nat, s: System, acts: seq<LossyAct>, s': System)
    requires LossyOk(n, s) && LossyReaches(n, s, acts, s')
    ensures LossyOk(n, s')
    decreases |acts|
  {
    if acts != [] {
      StepKeeps(n, s, acts[0]);
      LossyReachesOk(n, LossyStep(n, s, acts[0]), acts[1..], s');
    }
  }

  /**
    Recovery in every run.  Ends may lose their state at any time but while an answer is on the way, in both directions
    at once; each sends its next byte when all is settled.  Then every byte is delivered once, in order, to its service:
    each end has delivered what the other has sent, but for at most the last byte, and nothing is missing once all is
    settled.  No protocol error occurs.
   */
  lemma LossyEnds(n: nat, acts: seq<LossyAct>, s: System)
    requires n <= 8 && LossyReaches(n, START, acts, s)
    ensures s.ok && s.hostGot <= s.deviceSent && s.deviceGot <= s.hostSent
    ensures |s.deviceSent| <= |s.hostGot| + 1 && |s.hostSent| <= |s.deviceGot| + 1
    ensures Settled(s.toHost, s.toDevice) ==> s.hostGot == s.deviceSent
    ensures Settled(s.toDevice, s.toHost) ==> s.deviceGot == s.hostSent
  {
    LossyReachesOk(n, START, acts, s);
    hide DataOf, Asks;
  }

  /** The last byte sent, lost once, and its answer on the way: the service has been read, the data not yet. */
  const ANSWERED: System := START.(device := End(0xD0, false, -1, -1), host := End(-1, false, 0xD0, -1),
                                   toDevice := [5], hostSent := [Msg(0xD0, 5)])

  const SENT: System := START.(host := End(-1, false, 0xD0, 5), toDevice := [0xD0, 5], hostSent := [Msg(0xD0, 5)])
  const NAMED: System := SENT.(device := End(0xD0, false, -1, -1), toDevice := [5])
  const LOST: System := NAMED.(device := RESET)
  const ASKED: System := LOST.(toDevice := [], toHost := [FORCE_SID_CHAR])
  const AGAIN: System := ASKED.(toHost := [], toDevice := [0xD0, 5], host := End(-1, false, 0xD0, -1))

  lemma AnsweredSteps()
    ensures LossyStep(8, START, Plain(HostSends(0xD0, 5))) == SENT && LossyStep(8, SENT, Plain(DeviceReads)) == NAMED
    ensures LossyStep(8, NAMED, DeviceLoses) == LOST && LossyStep(8, LOST, Plain(DeviceReads)) == ASKED
    ensures LossyStep(8, ASKED, Plain(HostReads)) == AGAIN && LossyStep(8, AGAIN, Plain(DeviceReads)) == ANSWERED
  {
    assert [0xD0, 5][1..] == [5] && [5][1..] == [];
  }

  lemma AnsweredReached()
    ensures LossyReaches(8, START, [Plain(HostSends(0xD0, 5)), Plain(DeviceReads), DeviceLoses, Plain(DeviceReads),
                                    Plain(HostReads), Plain(DeviceReads)], ANSWERED)
  {
    var send, read, answer := Plain(HostSends(0xD0, 5)), Plain(DeviceReads), Plain(HostReads);
    var rest := [read, answer, read];
    AnsweredSteps();
    ThreeActs(8, LOST, ASKED, AGAIN, ANSWERED, read, answer, read, [], ANSWERED);
    assert rest + [] == rest;
    ThreeActs(8, START, SENT, NAMED, LOST, send, read, DeviceLoses, rest, ANSWERED);
    assert [send, read, DeviceLoses] + rest == [send, read, DeviceLoses, read, answer, read];
  }

  lemma ThreeActs(n: nat, s0: System, s1: System, s2: System, s3: System, a: LossyAct, b: LossyAct, c: LossyAct,
      rest: seq<LossyAct>, s: System)
    requires EndOk(s0.device) && EndOk(s0.host) && EndOk(s1.device) && EndOk(s1.host)
    requires EndOk(s2.device) && EndOk(s2.host)
    requires LossyStep(n, s0, a) == s1 && LossyStep(n, s1, b) == s2 && LossyStep(n, s2, c) == s3
    requires LossyReaches(n, s3, rest, s)
    ensures LossyReaches(n, s0, [a, b, c] + rest, s)
  {
    hide LossyStep, EndOk;
    var acts := [a, b, c] + rest;
    assert acts[1..] == [b, c] + rest && ([b, c] + rest)[1..] == [c] + rest && ([c] + rest)[1..] == rest;
    assert LossyReaches(n, s2, [c] + rest, s);
    assert LossyReaches(n, s1, [b, c] + rest, s);
  }

  /** There a second loss is fatal: the host is asked again and has nothing to send again. */
  lemma SecondLossFatal()
    ensures Answering(ANSWERED.host, ANSWERED.toDevice)
    ensures var lost := ANSWERED.(device := Lost(ANSWERED.device));
            var asked := ActStep(8, lost, DeviceReads);
            EndOk(asked.device) && EndOk(asked.host) && !ActStep(8, asked, HostReads).ok
  {
    assert ANSWERED.toDevice[1..] == [];
  }

  /** Two bytes sent without waiting, and their service lost: both are asked for, and the second request is fatal. */
  const HASTY: System := START.(host := End(-1, false, 0xD0, 6), toDevice := [5, 6],
                                hostSent := [Msg(0xD0, 5), Msg(0xD0, 6)])

  lemma NoWaitFatal()
    ensures var sent := ActStep(8, ActStep(8, START, HostSends(0xD0, 5)), HostSends(0xD0, 6));
            HASTY == sent.(toDevice := sent.toDevice[1..])
    ensures var asked := HASTY.(toDevice := [], toHost := [FORCE_SID_CHAR, FORCE_SID_CHAR]);
            && ActStep(8, ActStep(8, HASTY, DeviceReads), DeviceReads) == asked
            && !ActStep(8, ActStep(8, asked, HostReads), HostReads).ok
  {
    assert [0xD0, 5, 6][1..] == [5, 6] && [5, 6][1..] == [6] && [6][1..] == [];
    assert [FORCE_SID_CHAR, FORCE_SID_CHAR][1..] == [FORCE_SID_CHAR];
  }
}
