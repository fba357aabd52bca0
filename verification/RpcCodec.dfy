/** The serializer and the parser themselves: a cursor through a buffer, and a sticky error flag. */
module RpcCodec {
  import opened Octets
  import opened Rpc

  /** w has been written at p, and nothing else. */
  ghost predicate Wrote(before: seq<Byte>, after: seq<Byte>, p: nat, w: seq<Byte>) {
    && p + |w| <= |before| == |after| && after[p..p + |w|] == w
    && after[..p] == before[..p] && after[p + |w|..] == before[p + |w|..]
  }

  lemma WroteJoin(a: seq<Byte>, b: seq<Byte>, c: seq<Byte>, p: nat, v: seq<Byte>, w: seq<Byte>)
    requires Wrote(a, b, p, v) && Wrote(b, c, p + |v|, w)
    ensures Wrote(a, c, p, v + w)
  {
    var q := p + |v|;
    assert c[p..q] == c[..q][p..] == b[..q][p..] == b[p..q];
    assert c[p..q + |w|] == c[p..q] + c[q..q + |w|];
    assert c[..p] == c[..q][..p] == b[..q][..p] == b[..p];
    assert b[q + |w|..] == b[q..][|w|..];
  }

  /** One byte through the cursor. */
  method Put(buf: array<Byte>, p: nat, b: Byte) returns (p': nat)
    requires p < buf.Length
    modifies buf
    ensures p' == p + 1 && Wrote(old(buf[..]), buf[..], p, [b])
  {
    buf[p] := b;
    p' := p + 1;
  }

  /** memcpy to the cursor. */
  method PutAll(buf: array<Byte>, p: nat, w: seq<Byte>) returns (p': nat)
    requires p + |w| <= buf.Length
    modifies buf
    ensures p' == p + |w| && Wrote(old(buf[..]), buf[..], p, w)
  {
    for i := 0 to |w|
      invariant forall x | 0 <= x < buf.Length :: buf[x] == if p <= x < p + i then w[x - p] else old(buf[x])
    {
      buf[p + i] := w[i];
    }
    p' := p + |w|;
  }

  /** eluarpc_write_u16. */
  method WriteU16(buf: array<Byte>, p: nat, n: nat) returns (p': nat)
    requires p + 3 <= buf.Length && n < 0x1_0000
    modifies buf
    ensures p' == p + 3 && Wrote(old(buf[..]), buf[..], p, U16Bytes(n))
  {
    buf[p] := TYPE_INT_16;
    buf[p + 1] := n % 0x100;
    buf[p + 2] := n / 0x100 % 0x100;
    p' := p + 3;
  }

  /** eluarpc_write_u32. */
  method WriteU32(buf: array<Byte>, p: nat, n: nat) returns (p': nat)
    requires p + 5 <= buf.Length && n < 0x1_0000_0000
    modifies buf
    ensures p' == p + 5 && Wrote(old(buf[..]), buf[..], p, U32Bytes(n))
  {
    buf[p] := TYPE_INT_32;
    buf[p + 1] := n % 0x100;
    buf[p + 2] := n / 0x100 % 0x100;
    buf[p + 3] := n / 0x1_0000 % 0x100;
    buf[p + 4] := n / 0x100_0000 % 0x100;
    p' := p + 5;
  }

  /** eluarpc_write_u8 and eluarpc_write_op_id. */
  method WriteByte(buf: array<Byte>, p: nat, tag: Byte, b: Byte) returns (p': nat)
    requires p + 2 <= buf.Length
    modifies buf
    ensures p' == p + 2 && Wrote(old(buf[..]), buf[..], p, [tag, b])
  {
    hide Wrote;
    ghost var w := buf[..];
    p' := Put(buf, p, tag);
    ghost var w1 := buf[..];
    p' := Put(buf, p', b);
    WroteJoin(w, w1, buf[..], p, [tag], [b]);
    assert [tag] + [b] == [tag, b];
  }

  /** eluarpc_write_ptr. */
  method WritePtr(buf: array<Byte>, p: nat, bytes: seq<Byte>) returns (p': nat)
    requires |bytes| < 0x1_0000_0000 && p + 6 + |bytes| <= buf.Length
    modifies buf
    ensures p' == p + 6 + |bytes| && Wrote(old(buf[..]), buf[..], p, [TYPE_PTR] + U32Bytes(|bytes|) + bytes)
  {
    hide Wrote, U32Bytes;
    ghost var w := buf[..];
    p' := Put(buf, p, TYPE_PTR);
    ghost var w1 := buf[..];
    p' := WriteU32(buf, p', |bytes|);
    ghost var w2 := buf[..];
    WroteJoin(w, w1, w2, p, [TYPE_PTR], U32Bytes(|bytes|));
    p' := PutAll(buf, p', bytes);
    WroteJoin(w, w2, buf[..], p, [TYPE_PTR] + U32Bytes(|bytes|), bytes);
  }

  /** eluarpc_write_small_ptr. */
  method WriteSmallPtr(buf: array<Byte>, p: nat, bytes: seq<Byte>) returns (p': nat)
    requires |bytes| < 0x1_0000 && p + 4 + |bytes| <= buf.Length
    modifies buf
    ensures p' == p + 4 + |bytes| && Wrote(old(buf[..]), buf[..], p, [TYPE_SMALL_PTR] + U16Bytes(|bytes|) + bytes)
  {
    hide Wrote, U16Bytes;
    ghost var w := buf[..];
    p' := Put(buf, p, TYPE_SMALL_PTR);
    ghost var w1 := buf[..];
    p' := WriteU16(buf, p', |bytes|);
    ghost var w2 := buf[..];
    WroteJoin(w, w1, w2, p, [TYPE_SMALL_PTR], U16Bytes(|bytes|));
    p' := PutAll(buf, p', bytes);
    WroteJoin(w, w2, buf[..], p, [TYPE_SMALL_PTR] + U16Bytes(|bytes|), bytes);
  }

  /** One case of the switch in eluarpc_gen_write. */
  method WriteField(buf: array<Byte>, p: nat, f: Field) returns (p': nat)
    requires FieldOk(f) && p + |FieldBytes(f)| <= buf.Length
    modifies buf
    ensures p' == p + |FieldBytes(f)| && Wrote(old(buf[..]), buf[..], p, FieldBytes(f))
  {
    hide Wrote, U32Bytes, U16Bytes;
    match f
    case Op(id) => p' := WriteByte(buf, p, TYPE_OP_ID, id);
    case Res(v) => p' := Put(buf, p, ResByte(v));
    case U8(v) => p' := WriteByte(buf, p, TYPE_INT_8, v);
    case U16(n) => p' := WriteU16(buf, p, n);
    case U32(n) => p' := WriteU32(buf, p, n);
    case Ptr(bytes) => p' := WritePtr(buf, p, bytes);
    case SmallPtr(bytes) => p' := WriteSmallPtr(buf, p, bytes);
  }

  /** eluarpc_start_packet and the loop of eluarpc_gen_write. */
  method WriteFields(buf: array<Byte>, fs: seq<Field>) returns (p: nat)
    requires (forall i | 0 <= i < |fs| :: FieldOk(fs[i])) && PacketSize(fs) <= buf.Length
    modifies buf
    ensures p == START_OFFSET + |StartBytes() + FieldsBytes(fs)|
    ensures Wrote(old(buf[..]), buf[..], START_OFFSET, StartBytes() + FieldsBytes(fs))
  {
    hide Wrote, FieldBytes, U32Bytes, FieldOk, FieldsBytes;
    ghost var w := buf[..];
    p := Put(buf, START_OFFSET, TYPE_START);
    ghost var w1 := buf[..];
    p := WriteU32(buf, p, PACKET_SIG);
    WroteJoin(w, w1, buf[..], START_OFFSET, [TYPE_START], U32Bytes(PACKET_SIG));
    FieldsNone(fs);
    assert StartBytes() + FieldsBytes(fs[..0]) == StartBytes();
    for i := 0 to |fs|
      invariant p == START_OFFSET + |StartBytes() + FieldsBytes(fs[..i])|
      invariant Wrote(w, buf[..], START_OFFSET, StartBytes() + FieldsBytes(fs[..i]))
    {
      FieldsOneMore(fs, i);
      ghost var w2 := buf[..];
      p := WriteField(buf, p, fs[i]);
      WroteJoin(w, w2, buf[..], START_OFFSET, StartBytes() + FieldsBytes(fs[..i]), FieldBytes(fs[i]));
      assert StartBytes() + FieldsBytes(fs[..i + 1]) == StartBytes() + FieldsBytes(fs[..i]) + FieldBytes(fs[i]);
    }
    assert fs[..|fs|] == fs;
  }

  /** eluarpc_gen_write: the buffer starts with the packet, and is unchanged after it. */
  method GenWrite(buf: array<Byte>, fs: seq<Field>)
    requires (forall i | 0 <= i < |fs| :: FieldOk(fs[i])) && PacketSize(fs) <= buf.Length
    modifies buf
    ensures Wrote(old(buf[..]), buf[..], 0, Packet(fs))
  {
    hide Wrote, FieldBytes, U32Bytes, U16Bytes, FieldOk, FieldsBytes;
    ghost var w := buf[..];
    var p := WriteFields(buf, fs);
    ghost var w3 := buf[..];
    p := Put(buf, p, TYPE_END);
    ghost var w4 := buf[..];
    p := WriteU32(buf, p, NOT_PACKET_SIG);
    WroteJoin(w3, w4, buf[..], START_OFFSET + |StartBytes() + FieldsBytes(fs)|, [TYPE_END], U32Bytes(NOT_PACKET_SIG));
    WroteJoin(w, w3, buf[..], START_OFFSET, StartBytes() + FieldsBytes(fs), EndBytes());
    var len := p % 0x1_0000;
    ghost var w5 := buf[..];
    p := Put(buf, 0, TYPE_PKT_SIZE);
    ghost var w6 := buf[..];
    p := WriteU16(buf, p, len);
    WroteJoin(w5, w6, buf[..], 0, [TYPE_PKT_SIZE], U16Bytes(len));
    HeaderFirst(w, w5, buf[..], [TYPE_PKT_SIZE] + U16Bytes(len), Body(fs));
  }

  /** The size header is written last, in front of the rest. */
  lemma HeaderFirst(a: seq<Byte>, b: seq<Byte>, c: seq<Byte>, h: seq<Byte>, w: seq<Byte>)
    requires Wrote(a, b, |h|, w) && Wrote(b, c, 0, h)
    ensures Wrote(a, c, 0, h + w)
  {
    var q := |h| + |w|;
    assert c[|h|..q] == c[|h|..][..|w|] == b[|h|..][..|w|] == b[|h|..q];
    assert c[0..q] == c[0..|h|] + c[|h|..q];
    assert c[q..] == c[|h|..][|w|..] == b[|h|..][|w|..] == b[q..];
  }

  lemma FieldsNone(fs: seq<Field>)
    ensures FieldsBytes(fs[..0]) == []
  {
  }

  lemma FieldsOneMore(fs: seq<Field>, i: nat)
    requires i < |fs|
    ensures FieldsBytes(fs[..i + 1]) == FieldsBytes(fs[..i]) + FieldBytes(fs[i])
    ensures |FieldsBytes(fs[..i + 1])| <= |FieldsBytes(fs)|
  {
    hide FieldBytes;
    assert fs[..i + 1] == fs[..i] + [fs[i]] && fs == fs[..i + 1] + fs[i + 1..];
    FieldsJoin(fs[..i], [fs[i]]);
    FieldsJoin(fs[..i + 1], fs[i + 1..]);
    assert [fs[i]][1..] == [];
  }

  lemma {:induction false} FieldsJoin(a: seq<Field>, b: seq<Field>)
    ensures FieldsBytes(a + b) == FieldsBytes(a) + FieldsBytes(b)
  {
    hide FieldBytes;
    if a == [] {
      assert a + b == b;
    } else {
      assert (a + b)[1..] == a[1..] + b;
      FieldsJoin(a[1..], b);
    }
  }

  /* ---- Reading ---- */

  class Reader {
    /** eluarpc_err_flag. */
    var err: bool

    constructor ()
    {
      err := false;
    }

    method ReadExpect(mem: Memory, p: nat, b: Byte) returns (p': nat)
      modifies this
      ensures p' == p + 1 && err == (old(err) || mem(p) != b)
    {
      if mem(p) != b {
        err := true;
      }
      p' := p + 1;
    }

    method Read32(mem: Memory, p: nat) returns (p': nat, n: nat)
      modifies this
      ensures p' == p + 5 && n == Num32(mem, p + 1) && err == (old(err) || mem(p) != TYPE_INT_32)
    {
      p' := ReadExpect(mem, p, TYPE_INT_32);
      n := mem(p') + mem(p' + 1) * 0x100 + mem(p' + 2) * 0x1_0000 + mem(p' + 3) * 0x100_0000;
      p' := p' + 4;
    }

    method Read16(mem: Memory, p: nat) returns (p': nat, n: nat)
      modifies this
      ensures p' == p + 3 && n == Num16(mem, p + 1) && err == (old(err) || mem(p) != TYPE_INT_16)
    {
      p' := ReadExpect(mem, p, TYPE_INT_16);
      n := mem(p') + mem(p' + 1) * 0x100;
      p' := p' + 2;
    }

    /** One case of the switch in eluarpc_gen_read. */
    method ReadOne(mem: Memory, p: nat, s: Spec) returns (p': nat, v: Value)
      modifies this
      ensures var r := ReadField(mem, p, s); p' == r.p && v == r.value && err == (old(err) || !r.ok)
    {
      v := Nothing;
      match s
      case ReadOp(id) =>
        p' := ReadExpect(mem, p, TYPE_OP_ID);
        if mem(p') != id {
          err := true;
        }
        p' := p' + 1;
      case ReadRes(x) =>
        p' := ReadExpect(mem, p, ResByte(x));
      case ReadU8 =>
        p' := ReadExpect(mem, p, TYPE_INT_8);
        v := Num(mem(p'));
        p' := p' + 1;
      case ReadU16 =>
        var n;
        p', n := Read16(mem, p);
        v := Num(n);
      case ReadU32 =>
        var n;
        p', n := Read32(mem, p);
        v := Num(n);
      case ReadPtr =>
        var n;
        p' := ReadExpect(mem, p, TYPE_PTR);
        p', n := Read32(mem, p');
        p' := p' + n;
        v := if p' == p + 6 then Null else Bytes(Span(mem, p + 6, n));
      case ReadSmallPtr =>
        var n;
        p' := ReadExpect(mem, p, TYPE_SMALL_PTR);
        p', n := Read16(mem, p');
        p' := p' + n;
        v := if p' == p + 4 then Null else Bytes(Span(mem, p + 4, n));
    }

    /** eluarpc_match_packet_start and eluarpc_match_packet_end. */
    method MatchSignature(mem: Memory, p: nat, tag: Byte, sig: nat) returns (p': nat)
      modifies this
      ensures p' == p + 6 && err == (old(err) ||
          !(mem(p) == tag && mem(p + 1) == TYPE_INT_32 && Num32(mem, p + 2) == sig))
    {
      var n;
      p' := ReadExpect(mem, p, tag);
      p', n := Read32(mem, p');
      if n != sig {
        err := true;
      }
    }

    /** eluarpc_gen_read. */
    method GenRead(mem: Memory, specs: seq<Spec>) returns (ok: bool, vs: seq<Value>)
      modifies this
      ensures (ok, vs) == GenReadSpec(mem, specs) && err == !ok
    {
      hide ReadField;
      err := false;
      var p := MatchSignature(mem, START_OFFSET, TYPE_START, PACKET_SIG);
      vs := [];
      assert specs[0..] == specs;
      assert [] + ReadFields(mem, p, specs).1 == ReadFields(mem, p, specs).1;
      for i := 0 to |specs|
        invariant var (ok', vs') := ReadFields(mem, p, specs[i..]);
                  (!err && ok', vs + vs') == GenReadSpec(mem, specs)
      {
        assert specs[i..][0] == specs[i] && specs[i..][1..] == specs[i + 1..];
        var v;
        ghost var p0 := p;
        p, v := ReadOne(mem, p, specs[i]);
        assert vs + ReadFields(mem, p0, specs[i..]).1 == vs + [v] + ReadFields(mem, p, specs[i + 1..]).1;
        vs := vs + [v];
      }
      assert vs + [] == vs && specs[|specs|..] == [];
      p := MatchSignature(mem, p, TYPE_END, NOT_PACKET_SIG);
      ok := !err;
    }

    /** eluarpc_get_packet_size. */
    method GetPacketSize(mem: Memory) returns (ok: bool, size: nat)
      modifies this
      ensures (ok, size) == GetPacketSizeSpec(mem) && err == !ok
    {
      err := false;
      var p := ReadExpect(mem, 0, TYPE_PKT_SIZE);
      p, size := Read16(mem, p);
      ok := !err;
    }

    /** eluarpc_get_request_id. */
    method GetRequestId(mem: Memory) returns (ok: bool, id: Byte)
      modifies this
      ensures (ok, id) == GetRequestIdSpec(mem) && err == !ok
    {
      err := false;
      var p := MatchSignature(mem, START_OFFSET, TYPE_START, PACKET_SIG);
      p := ReadExpect(mem, p, TYPE_OP_ID);
      id := mem(p);
      ok := !err;
    }
  }
}
