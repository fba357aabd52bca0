/**
  The packets of the remote procedure call layer: tagged fields between a start and an end signature, behind a size
  header.
 */
module Rpc {
  import opened Octets

  const TYPE_INT_8: Byte := 0x01
  const TYPE_INT_16: Byte := 0x02
  const TYPE_INT_32: Byte := 0x03
  const TYPE_PTR: Byte := 0x04
  const TYPE_START: Byte := 0x05
  const TYPE_END: Byte := 0x06
  const TYPE_OP_ID: Byte := 0x07
  const TYPE_SMALL_PTR: Byte := 0x08
  const TYPE_PKT_SIZE: Byte := 0xA5
  const PACKET_SIG: nat := 0x18AF_C284
  const NOT_PACKET_SIG: nat := 0xE750_3D7B
  const OP_RES_MOD: nat := 0x80
  const START_OFFSET: nat := 4

  /**
    What eluarpc_gen_write is given, one item per format character: o, r, c, h, l (also i and L, which write the
    same), p, P.
   */
  datatype Field =
    | Op(id: Byte)
    | Res(v: Byte)
    | U8(v: Byte)
    | U16(n: nat)
    | U32(n: nat)
    | Ptr(bytes: seq<Byte>)
    | SmallPtr(bytes: seq<Byte>)

  /** What eluarpc_gen_read expects; only operations and responses carry a value to compare. */
  datatype Spec = ReadOp(id: Byte) | ReadRes(v: Byte) | ReadU8 | ReadU16 | ReadU32 | ReadPtr | ReadSmallPtr

  /** What it hands back; a pointer to no bytes comes back as NULL. */
  datatype Value = Nothing | Num(n: nat) | Null | Bytes(bytes: seq<Byte>)

  ghost predicate FieldOk(f: Field) {
    match f
    case U16(n) => n < 0x1_0000
    case U32(n) => n < 0x1_0000_0000
    case Ptr(bytes) => |bytes| < 0x1_0000_0000
    case SmallPtr(bytes) => |bytes| < 0x1_0000
    case _ => true
  }

  /** ELUARPC_OP_RES_MOD | v. */
  function ResByte(v: Byte): Byte { if v < 0x80 then v + OP_RES_MOD else v }

  /* ---- The wire form ---- */

  function U32Bytes(n: nat): (r: seq<Byte>)
    ensures |r| == 5
  {
    [TYPE_INT_32] + Le32(n)
  }

  function U16Bytes(n: nat): (r: seq<Byte>)
    ensures |r| == 3
  {
    [TYPE_INT_16] + Le16(n)
  }

  function FieldBytes(f: Field): (r: seq<Byte>)
    ensures |r| >= 1
  {
    match f
    case Op(id) => [TYPE_OP_ID, id]
    case Res(v) => [ResByte(v)]
    case U8(v) => [TYPE_INT_8, v]
    case U16(n) => U16Bytes(n)
    case U32(n) => U32Bytes(n)
    case Ptr(bytes) => [TYPE_PTR] + U32Bytes(|bytes|) + bytes
    case SmallPtr(bytes) => [TYPE_SMALL_PTR] + U16Bytes(|bytes|) + bytes
  }

  function FieldsBytes(fs: seq<Field>): seq<Byte> {
    if fs == [] then [] else FieldBytes(fs[0]) + FieldsBytes(fs[1..])
  }

  function StartBytes(): seq<Byte> { [TYPE_START] + U32Bytes(PACKET_SIG) }
  function EndBytes(): seq<Byte> { [TYPE_END] + U32Bytes(NOT_PACKET_SIG) }

  /** The packet after its size header. */
  function Body(fs: seq<Field>): seq<Byte> { StartBytes() + FieldsBytes(fs) + EndBytes() }

  function PacketSize(fs: seq<Field>): nat { START_OFFSET + |Body(fs)| }

  /** The whole packet; the size goes into 16 bits. */
  function Packet(fs: seq<Field>): seq<Byte> {
    [TYPE_PKT_SIZE] + U16Bytes(PacketSize(fs) % 0x1_0000) + Body(fs)
  }

  /** Every field on the wire, byte by byte. */
  lemma FieldOnWire(f: Field)
    requires FieldOk(f)
    ensures f.Op? ==> FieldBytes(f) == [7, f.id]
    ensures f.Res? ==> FieldBytes(f) == [if f.v < 0x80 then f.v + 0x80 else f.v]
    ensures f.U8? ==> FieldBytes(f) == [1, f.v]
    ensures f.U16? ==> FieldBytes(f) == [2, f.n % 256, f.n / 256]
    ensures f.U32? ==> |FieldBytes(f)| == 5 && FieldBytes(f)[0] == 3 && Number(FieldBytes(f), 1, 4) == f.n
    ensures f.Ptr? ==> var b := FieldBytes(f);
      |b| == 6 + |f.bytes| && b[0] == 4 && b[1] == 3 && Number(b, 2, 4) == |f.bytes| && b[6..] == f.bytes
    ensures f.SmallPtr? ==> var b := FieldBytes(f);
      |b| == 4 + |f.bytes| && b[0] == 8 && b[1] == 2 && Number(b, 2, 2) == |f.bytes| && b[4..] == f.bytes
  {
    match f
    case U32(n) =>
      Le32RoundTrip(n);
      NumberIs(FieldBytes(f), 1);
    case Ptr(bytes) => PtrOnWire(bytes);
    case SmallPtr(bytes) => SmallPtrOnWire(bytes);
    case _ =>
  }

  lemma PtrOnWire(bytes: seq<Byte>)
    requires |bytes| < 0x1_0000_0000
    ensures var b := FieldBytes(Ptr(bytes));
            |b| == 6 + |bytes| && b[0] == 4 && b[1] == 3 && Number(b, 2, 4) == |bytes| && b[6..] == bytes
  {
    var n := |bytes|;
    var b, size := FieldBytes(Ptr(bytes)), Le32(n);
    Le32RoundTrip(n);
    hide Le32;
    assert b == [4, 3] + size + bytes;
    assert b[2] == size[0] && b[3] == size[1] && b[4] == size[2] && b[5] == size[3];
    NumberIs(b, 2);
  }

  lemma SmallPtrOnWire(bytes: seq<Byte>)
    requires |bytes| < 0x1_0000
    ensures var b := FieldBytes(SmallPtr(bytes));
            |b| == 4 + |bytes| && b[0] == 8 && b[1] == 2 && Number(b, 2, 2) == |bytes| && b[4..] == bytes
  {
    var n := |bytes|;
    var b := FieldBytes(SmallPtr(bytes));
    assert b == [8, 2] + [n % 256, n / 256 % 256] + bytes;
    assert b[2] == n % 256 && b[3] == n / 256 % 256;
    assert Number(b, 3, 1) == b[3];
  }

  /** The number in k bytes of b from i on, least significant first. */
  function Number(b: seq<Byte>, i: nat, k: nat): nat
    requires i + k <= |b|
    decreases k
  {
    if k == 0 then 0 else b[i] + 256 * Number(b, i + 1, k - 1)
  }

  lemma NumberIs(b: seq<Byte>, i: nat)
    requires i + 4 <= |b|
    ensures Number(b, i, 4) == FromLe32(b[i], b[i + 1], b[i + 2], b[i + 3])
  {
    assert Number(b, i + 3, 1) == b[i + 3];
    assert Number(b, i + 2, 2) == 256 * Number(b, i + 3, 1) + b[i + 2];
  }

  /** A packet around its fields: size header with the length of all of it, start signature, end signature. */
  lemma PacketOnWire(fs: seq<Field>)
    requires |FieldsBytes(fs)| + 16 < 0x1_0000
    ensures var n := |FieldsBytes(fs)| + 16;
            Packet(fs) == [0xA5, 2, n % 256, n / 256] + [5, 3, 0x84, 0xC2, 0xAF, 0x18] + FieldsBytes(fs) +
                          [6, 3, 0x7B, 0x3D, 0x50, 0xE7]
  {
    hide FieldsBytes;
    SignaturesOnWire();
    hide StartBytes, EndBytes;
    var n := PacketSize(fs);
    assert n == |FieldsBytes(fs)| + 16;
    assert U16Bytes(n) == [2, n % 256, n / 256];
    hide U16Bytes;
    assert [TYPE_PKT_SIZE] + [2, n % 256, n / 256] == [0xA5, 2, n % 256, n / 256];
  }

  lemma SignaturesOnWire()
    ensures StartBytes() == [5, 3, 0x84, 0xC2, 0xAF, 0x18] && EndBytes() == [6, 3, 0x7B, 0x3D, 0x50, 0xE7]
  {
    assert Le32(PACKET_SIG) == [0x84, 0xC2, 0xAF, 0x18] && Le32(NOT_PACKET_SIG) == [0x7B, 0x3D, 0x50, 0xE7];
  }

  /* ---- Reading, with memory after the packet holding anything ---- */

  /** The memory a packet pointer gives access to. */
  type Memory = nat -> Byte

  /** w is what lies in memory from p on. */
  ghost predicate At(mem: Memory, p: nat, w: seq<Byte>) {
    forall i | 0 <= i < |w| :: mem(p + i) == w[i]
  }

  datatype Reading = Reading(ok: bool, value: Value, p: nat)

  function Num32(mem: Memory, p: nat): nat { mem(p) + mem(p + 1) * 0x100 + mem(p + 2) * 0x1_0000 +
      mem(p + 3) * 0x100_0000 }
  function Num16(mem: Memory, p: nat): nat { mem(p) + mem(p + 1) * 0x100 }

  /** n bytes of memory. */
  function Span(mem: Memory, p: nat, n: nat): (r: seq<Byte>)
    ensures |r| == n && forall i | 0 <= i < n :: r[i] == mem(p + i)
  {
    seq(n, i requires 0 <= i < n => mem(p + i))
  }

  function Pointed(mem: Memory, p: nat, n: nat): Value { if n == 0 then Null else Bytes(Span(mem, p, n)) }

  function ReadField(mem: Memory, p: nat, s: Spec): Reading {
    match s
    case ReadOp(id) => Reading(mem(p) == TYPE_OP_ID && mem(p + 1) == id, Nothing, p + 2)
    case ReadRes(v) => Reading(mem(p) == ResByte(v), Nothing, p + 1)
    case ReadU8 => Reading(mem(p) == TYPE_INT_8, Num(mem(p + 1)), p + 2)
    case ReadU16 => Reading(mem(p) == TYPE_INT_16, Num(Num16(mem, p + 1)), p + 3)
    case ReadU32 => Reading(mem(p) == TYPE_INT_32, Num(Num32(mem, p + 1)), p + 5)
    case ReadPtr =>
      var n := Num32(mem, p + 2);
      Reading(mem(p) == TYPE_PTR && mem(p + 1) == TYPE_INT_32, Pointed(mem, p + 6, n), p + 6 + n)
    case ReadSmallPtr =>
      var n := Num16(mem, p + 2);
      Reading(mem(p) == TYPE_SMALL_PTR && mem(p + 1) == TYPE_INT_16, Pointed(mem, p + 4, n), p + 4 + n)
  }

  predicate MatchStart(mem: Memory, p: nat) { mem(p) == TYPE_START && mem(p + 1) == TYPE_INT_32 &&
      Num32(mem, p + 2) == PACKET_SIG }
  predicate MatchEnd(mem: Memory, p: nat) { mem(p) == TYPE_END && mem(p + 1) == TYPE_INT_32 &&
      Num32(mem, p + 2) == NOT_PACKET_SIG }

  /** All fields, then the end signature; the error flag is sticky, so everything must fit. */
  function ReadFields(mem: Memory, p: nat, specs: seq<Spec>): (bool, seq<Value>)
    decreases |specs|
  {
    if specs == [] then (MatchEnd(mem, p), [])
    else
      var r := ReadField(mem, p, specs[0]);
      var (ok, vs) := ReadFields(mem, r.p, specs[1..]);
      (r.ok && ok, [r.value] + vs)
  }

  /** eluarpc_gen_read, as a function of memory. */
  function GenReadSpec(mem: Memory, specs: seq<Spec>): (bool, seq<Value>) {
    var (ok, vs) := ReadFields(mem, START_OFFSET + 6, specs);
    (MatchStart(mem, START_OFFSET) && ok, vs)
  }

  /* ---- When a format accepts a packet ---- */

  /** One field is of the kind, and has the operation or response, that the format asks for. */
  ghost predicate Fits(f: Field, s: Spec) {
    match (f, s)
    case (Op(id), ReadOp(id')) => id == id'
    case (Res(v), ReadRes(v')) => v % 0x80 == v' % 0x80
    case (U8(_), ReadU8) => true
    case (U16(_), ReadU16) => true
    case (U32(_), ReadU32) => true
    case (Ptr(_), ReadPtr) => true
    case (SmallPtr(_), ReadSmallPtr) => true
    case _ => false
  }

  ghost predicate AllFit(fs: seq<Field>, specs: seq<Spec>) {
    |fs| == |specs| && forall i | 0 <= i < |fs| :: Fits(fs[i], specs[i])
  }

  ghost function ValueOf(f: Field): Value {
    match f
    case U8(v) => Num(v)
    case U16(n) => Num(n)
    case U32(n) => Num(n)
    case Ptr(bytes) => if bytes == [] then Null else Bytes(bytes)
    case SmallPtr(bytes) => if bytes == [] then Null else Bytes(bytes)
    case _ => Nothing
  }

  lemma AtSplit(mem: Memory, p: nat, a: seq<Byte>, b: seq<Byte>)
    ensures At(mem, p, a + b) <==> At(mem, p, a) && At(mem, p + |a|, b)
  {
    if At(mem, p, a + b) {
      forall i | 0 <= i < |a| ensures mem(p + i) == a[i] { assert (a + b)[i] == a[i]; }
      forall i | 0 <= i < |b| ensures mem(p + |a| + i) == b[i] {
        assert (a + b)[|a| + i] == b[i] && mem(p + (|a| + i)) == (a + b)[|a| + i];
      }
    }
    if At(mem, p, a) && At(mem, p + |a|, b) {
      forall i | 0 <= i < |a + b| ensures mem(p + i) == (a + b)[i] {
        if i >= |a| { assert mem(p + |a| + (i - |a|)) == b[i - |a|]; }
      }
    }
  }

  lemma Read32(mem: Memory, p: nat, n: nat)
    requires At(mem, p, U32Bytes(n)) && n < 0x1_0000_0000
    ensures mem(p) == TYPE_INT_32 && Num32(mem, p + 1) == n
  {
    Le32RoundTrip(n);
    var b, l := U32Bytes(n), Le32(n);
    assert b[0] == TYPE_INT_32 && b[1] == l[0] && b[2] == l[1] && b[3] == l[2] && b[4] == l[3];
    assert mem(p + 0) == b[0] && mem(p + 1) == b[1] && mem(p + 2) == b[2] && mem(p + 3) == b[3] && mem(p + 4) == b[4];
  }

  lemma Read16(mem: Memory, p: nat, n: nat)
    requires At(mem, p, U16Bytes(n)) && n < 0x1_0000
    ensures mem(p) == TYPE_INT_16 && Num16(mem, p + 1) == n
  {
    var b := U16Bytes(n);
    assert mem(p + 0) == b[0] && mem(p + 1) == b[1] && mem(p + 2) == b[2];
  }

  /** A written field, read with a fitting specifier, gives its value and its length. */
  lemma ReadWritten(mem: Memory, p: nat, f: Field, s: Spec)
    requires FieldOk(f) && At(mem, p, FieldBytes(f)) && Fits(f, s)
    ensures ReadField(mem, p, s) == Reading(true, ValueOf(f), p + |FieldBytes(f)|)
  {
    hide U32Bytes, U16Bytes, Num32, Num16;
    var w := FieldBytes(f);
    assert mem(p + 0) == w[0];
    match f
    case Op(id) => assert mem(p + 1) == w[1];
    case U8(v) => assert mem(p + 1) == w[1];
    case Res(v) => SameRes(v, s.v);
    case U16(n) => Read16(mem, p, n);
    case U32(n) => Read32(mem, p, n);
    case Ptr(bytes) =>
      AtSplit(mem, p, [TYPE_PTR] + U32Bytes(|bytes|), bytes);
      AtSplit(mem, p, [TYPE_PTR], U32Bytes(|bytes|));
      Read32(mem, p + 1, |bytes|);
      assert Span(mem, p + 6, |bytes|) == bytes;
    case SmallPtr(bytes) =>
      AtSplit(mem, p, [TYPE_SMALL_PTR] + U16Bytes(|bytes|), bytes);
      AtSplit(mem, p, [TYPE_SMALL_PTR], U16Bytes(|bytes|));
      Read16(mem, p + 1, |bytes|);
      assert Span(mem, p + 4, |bytes|) == bytes;
  }

  lemma SameRes(a: Byte, b: Byte)
    ensures ResByte(a) == ResByte(b) <==> a % 0x80 == b % 0x80
  {
  }

  /** A field that does not fit is refused at its first or second byte. */
  lemma ReadMisfit(mem: Memory, p: nat, f: Field, s: Spec)
    requires At(mem, p, FieldBytes(f)) && !Fits(f, s)
    ensures !ReadField(mem, p, s).ok
  {
    var w := FieldBytes(f);
    assert mem(p + 0) == w[0];
    if f.Op? { assert mem(p + 1) == w[1]; }
    if f.Res? && s.ReadRes? { SameRes(f.v, s.v); }
  }

  lemma ReadEnd(mem: Memory, p: nat)
    requires At(mem, p, EndBytes())
    ensures MatchEnd(mem, p) && mem(p) == TYPE_END
  {
    AtSplit(mem, p, [TYPE_END], U32Bytes(NOT_PACKET_SIG));
    Read32(mem, p + 1, NOT_PACKET_SIG);
    assert EndBytes()[0] == TYPE_END && mem(p + 0) == EndBytes()[0];
  }

  /** Fields and end signature are accepted exactly when they fit one by one, and then give back the values. */
  lemma {:induction false} ReadAllFields(mem: Memory, p: nat, fs: seq<Field>, specs: seq<Spec>)
    requires (forall i | 0 <= i < |fs| :: FieldOk(fs[i])) && At(mem, p, FieldsBytes(fs) + EndBytes())
    ensures ReadFields(mem, p, specs).0 <==> AllFit(fs, specs)
    ensures AllFit(fs, specs) ==>
        && |ReadFields(mem, p, specs).1| == |fs|
        && forall i | 0 <= i < |fs| :: ReadFields(mem, p, specs).1[i] == ValueOf(fs[i])
    decreases |specs|
  {
    hide FieldBytes, Fits, FieldOk, ReadField, EndBytes, MatchEnd;
    if fs == [] {
      assert FieldsBytes(fs) + EndBytes() == EndBytes();
      ReadEnd(mem, p);
      if specs != [] { EndMisfit(mem, p, specs[0]); }
    } else {
      var w := FieldsBytes(fs[1..]) + EndBytes();
      assert FieldsBytes(fs) + EndBytes() == FieldBytes(fs[0]) + w;
      AtSplit(mem, p, FieldBytes(fs[0]), w);
      if specs == [] {
        FieldNotEnd(mem, p, fs[0]);
      } else if Fits(fs[0], specs[0]) {
        ReadWritten(mem, p, fs[0], specs[0]);
        ReadAllFields(mem, p + |FieldBytes(fs[0])|, fs[1..], specs[1..]);
        FitsCons(fs, specs);
      } else {
        ReadMisfit(mem, p, fs[0], specs[0]);
      }
    }
  }

  lemma FitsCons(fs: seq<Field>, specs: seq<Spec>)
    requires fs != [] && specs != []
    ensures AllFit(fs, specs) <==> Fits(fs[0], specs[0]) && AllFit(fs[1..], specs[1..])
  {
    hide Fits;
    if Fits(fs[0], specs[0]) && AllFit(fs[1..], specs[1..]) {
      forall i | 0 <= i < |fs| ensures Fits(fs[i], specs[i]) {
        if i > 0 { assert fs[i] == fs[1..][i - 1] && specs[i] == specs[1..][i - 1]; }
      }
    }
    if AllFit(fs, specs) {
      forall i | 0 <= i < |fs[1..]| ensures Fits(fs[1..][i], specs[1..][i]) {
        assert fs[1..][i] == fs[i + 1] && specs[1..][i] == specs[i + 1];
      }
    }
  }

  lemma EndMisfit(mem: Memory, p: nat, s: Spec)
    requires mem(p) == TYPE_END
    ensures !ReadField(mem, p, s).ok
  {
  }

  lemma FieldNotEnd(mem: Memory, p: nat, f: Field)
    requires At(mem, p, FieldBytes(f))
    ensures !MatchEnd(mem, p)
  {
    assert mem(p + 0) == FieldBytes(f)[0];
  }

  /**
    The round trip: whatever memory holds after the packet, eluarpc_gen_read accepts what eluarpc_gen_write wrote
    exactly when the formats agree field by field, and then it hands back what was written.
   */
  lemma RoundTrip(mem: Memory, fs: seq<Field>, specs: seq<Spec>)
    requires (forall i | 0 <= i < |fs| :: FieldOk(fs[i])) && At(mem, 0, Packet(fs))
    ensures GenReadSpec(mem, specs).0 <==> AllFit(fs, specs)
    ensures AllFit(fs, specs) ==>
        && |GenReadSpec(mem, specs).1| == |fs|
        && forall i | 0 <= i < |fs| :: GenReadSpec(mem, specs).1[i] == ValueOf(fs[i])
  {
    hide FieldsBytes, EndBytes, ReadFields, Fits, FieldOk;
    PacketParts(mem, fs);
    ReadAllFields(mem, START_OFFSET + 6, fs, specs);
  }

  lemma PacketParts(mem: Memory, fs: seq<Field>)
    requires At(mem, 0, Packet(fs))
    ensures At(mem, 0, [TYPE_PKT_SIZE] + U16Bytes(PacketSize(fs) % 0x1_0000)) && MatchStart(mem, START_OFFSET)
    ensures At(mem, START_OFFSET + 6, FieldsBytes(fs) + EndBytes())
  {
    hide FieldsBytes, EndBytes, U16Bytes, PacketSize;
    var h := [TYPE_PKT_SIZE] + U16Bytes(PacketSize(fs) % 0x1_0000);
    assert Packet(fs) == h + (StartBytes() + (FieldsBytes(fs) + EndBytes()));
    AtSplit(mem, 0, h, StartBytes() + (FieldsBytes(fs) + EndBytes()));
    AtSplit(mem, START_OFFSET, StartBytes(), FieldsBytes(fs) + EndBytes());
    AtSplit(mem, START_OFFSET, [TYPE_START], U32Bytes(PACKET_SIG));
    Read32(mem, START_OFFSET + 1, PACKET_SIG);
    assert mem(START_OFFSET + 0) == StartBytes()[0];
  }

  /** eluarpc_get_packet_size and eluarpc_get_request_id, as functions of memory. */
  function GetPacketSizeSpec(mem: Memory): (bool, nat) {
    (mem(0) == TYPE_PKT_SIZE && mem(1) == TYPE_INT_16, Num16(mem, 2))
  }

  function GetRequestIdSpec(mem: Memory): (bool, Byte) {
    (MatchStart(mem, START_OFFSET) && mem(START_OFFSET + 6) == TYPE_OP_ID, mem(START_OFFSET + 7))
  }

  /** Responses that differ in their top bit only are not told apart: a reader that expects 0x81 accepts 0x01. */
  lemma ResponsesConfused(mem: Memory)
    requires At(mem, 0, Packet([Res(0x01)]))
    ensures GenReadSpec(mem, [ReadRes(0x01)]).0 && GenReadSpec(mem, [ReadRes(0x81)]).0
  {
    hide Packet, GenReadSpec;
    RoundTrip(mem, [Res(0x01)], [ReadRes(0x01)]);
    RoundTrip(mem, [Res(0x01)], [ReadRes(0x81)]);
  }

  /** eluarpc_match_packet_end where unsigned long counts to `long`: the complement is taken in that type. */
  predicate MatchEndIn(long: nat, mem: Memory, p: nat)
    requires PACKET_SIG < long
  {
    mem(p) == TYPE_END && mem(p + 1) == TYPE_INT_32 && Num32(mem, p + 2) == long - 1 - PACKET_SIG
  }

  /** With 32 bits that is the end signature; with 64 nothing is, and so no packet is accepted. */
  lemma EndNeeds32Bits(mem: Memory, p: nat)
    ensures MatchEndIn(0x1_0000_0000, mem, p) <==> MatchEnd(mem, p)
    ensures !MatchEndIn(0x1_0000_0000_0000_0000, mem, p)
  {
  }

  /** The header gives the true length, for packets of up to 65535 bytes. */
  lemma SizeIsTrue(mem: Memory, fs: seq<Field>)
    requires At(mem, 0, Packet(fs))
    ensures GetPacketSizeSpec(mem).0 && (GetPacketSizeSpec(mem).1 == |Packet(fs)| <==> |Packet(fs)| < 0x1_0000)
  {
    hide FieldsBytes, EndBytes, U16Bytes, Num16;
    var n := PacketSize(fs) % 0x1_0000;
    PacketParts(mem, fs);
    AtSplit(mem, 0, [TYPE_PKT_SIZE], U16Bytes(n));
    assert mem(0 + 0) == [TYPE_PKT_SIZE][0];
    Read16(mem, 1, n);
  }

  /** The request ID of a packet is that of its first field, which must be an operation. */
  lemma RequestIdIs(mem: Memory, fs: seq<Field>)
    requires At(mem, 0, Packet(fs))
    ensures GetRequestIdSpec(mem).0 <==> fs != [] && fs[0].Op?
    ensures fs != [] && fs[0].Op? ==> GetRequestIdSpec(mem).1 == fs[0].id
  {
    hide Le32, Le16;
    PacketParts(mem, fs);
    AtSplit(mem, START_OFFSET + 6, FieldsBytes(fs), EndBytes());
    if fs == [] {
      assert mem(START_OFFSET + 6 + 0) == EndBytes()[0];
    } else {
      AtSplit(mem, START_OFFSET + 6, FieldBytes(fs[0]), FieldsBytes(fs[1..]));
      assert mem(START_OFFSET + 6 + 0) == FieldBytes(fs[0])[0];
      if fs[0].Op? { assert mem(START_OFFSET + 6 + 1) == FieldBytes(fs[0])[1]; }
    }
  }
}
