/** Walking the log byte by byte: the searches behind open and readdir. */
module RomScan {
  import opened Octets
  import opened WofsLog

  /* ---- What is read at one place ---- */

  /** The largest medium whose offsets, rounded up, fit 32 bits. */
  const MAX_MEDIUM: nat := 0xFFFF_FFF0

  /** The name at i, with its terminating zero. */
  ghost predicate NameIn(img: seq<Byte>, i: nat, name: seq<Byte>) {
    GoodName(name) && i + |name| < |img| && img[i..i + |name|] == name && img[i + |name|] == 0
  }

  /** What the fields before d say. */
  ghost predicate FieldsIn(img: seq<Byte>, d: nat, wo: bool, deleted: bool, size: nat) {
    && (if wo then 8 else 4) <= d <= |img|
    && FromLe32(img[d - 4], img[d - 3], img[d - 2], img[d - 1]) == size
    && (if wo then img[d - 8] == FILE_DELETED <==> deleted else !deleted)
  }

  lemma EntryReads(img: seq<Byte>, i: nat, e: Entry, wo: bool)
    requires EntryAt(img, i, e, wo)
    ensures NameIn(img, i, e.name) && FieldsIn(img, DataAt(i, |e.name|, wo), wo, e.deleted, |e.data|)
    ensures DataAt(i, |e.name|, wo) + |e.data| <= |img|
  {
    var d := DataAt(i, |e.name|, wo);
    Le32RoundTrip(|e.data|);
    var f := img[d - 4..d];
    assert f[0] == img[d - 4] && f[1] == img[d - 3] && f[2] == img[d - 2] && f[3] == img[d - 1];
  }

  /** The size of a file being written still reads 0xFFFFFFFF. */
  lemma PendingReads(img: seq<Byte>, i: nat, name: seq<Byte>, data: seq<Byte>)
    requires PendingAt(img, i, name, data)
    ensures NameIn(img, i, name) && FieldsIn(img, DataAt(i, |name|, true), true, false, 0xFFFF_FFFF)
    ensures var d := DataAt(i, |name|, true);
            d + |data| + 4 <= |img| && (img[d] == END_MARKER <==> data == [] || data[0] == END_MARKER)
  {
    var d := DataAt(i, |name|, true);
    if data != [] { assert img[d..d + |data|][0] == img[d]; }
  }

  lemma NameByte(img: seq<Byte>, i: nat, name: seq<Byte>, j: nat)
    requires NameIn(img, i, name) && j <= |name|
    ensures i + j < |img| && (img[i + j] == 0 <==> j == |name|) && (j < |name| ==> img[i + j] == name[j])
    ensures |name| <= MAX_FNAME_LENGTH && img[i] != END_MARKER
  {
    if j < |name| { assert img[i..i + |name|][j] == img[i + j]; }
    if name != [] { assert img[i..i + |name|][0] == img[i]; }
  }

  function Wrap(x: nat): nat { x % 0x1_0000_0000 }

  /** Where the walk goes on after data of the given size at d, on 32 bits; on a write-once system names are aligned. */
  function Onward(d: nat, size: nat, wo: bool): nat {
    if wo then Wrap(Wrap(d + size) + 3) / 4 * 4 else Wrap(d + size)
  }

  lemma OnwardIs(i: nat, nameLen: nat, dataLen: nat, wo: bool)
    requires DataAt(i, nameLen, wo) + dataLen <= MAX_MEDIUM
    ensures Onward(DataAt(i, nameLen, wo), dataLen, wo) == NextAt(i, nameLen, dataLen, wo)
  {
    hide DataAt;
    var x := DataAt(i, nameLen, wo) + dataLen;
    assert Wrap(x) == x && Wrap(x + 3) == x + 3;
    hide Wrap;
  }

  /** After a file that is being written the walk comes to that file's data. */
  lemma OnwardIntoData(d: nat)
    requires 0 < d <= MAX_MEDIUM && d % 4 == 0
    ensures Onward(d, 0xFFFF_FFFF, true) == d
  {
    assert Wrap(d + 0xFFFF_FFFF) == d - 1;
  }

  /* ---- The walk of open, on any medium ---- */

  /**
    What one look at an offset tells: the file, or that there is none, or where to look next, or that the medium has
    ended.
   */
  datatype Look = Found(base: nat, size: nat) | Absent(last: nat) | Next(at: nat) | Beyond

  /** The name loop: at most 30 bytes, up to a zero. */
  function NameFrom(img: seq<Byte>, i: nat, j: nat): seq<Byte>
    requires j <= MAX_FNAME_LENGTH
    decreases MAX_FNAME_LENGTH - j
  {
    if j == MAX_FNAME_LENGTH || i + j >= |img| || img[i + j] == 0 then [] else [img[i + j]] + NameFrom(img, i, j + 1)
  }

  /** One turn of the loop of romfs_open_file. */
  function Visit(img: seq<Byte>, wo: bool, fname: seq<Byte>, i: nat): Look {
    if i >= |img| then Beyond
    else if img[i] == END_MARKER then Absent(i)
    else
      var name := NameFrom(img, i, 0);
      var d := DataAt(i, |name|, wo);
      if d > |img| then Beyond
      else
        var size := FromLe32(img[d - 4], img[d - 3], img[d - 2], img[d - 1]);
        if SameName(name, Key(fname)) && !(wo && img[d - 8] == FILE_DELETED) then Found(d, size)
        else Next(Onward(d, size, wo))
  }

  /** The walk, for at most n turns. */
  function Walk(img: seq<Byte>, wo: bool, fname: seq<Byte>, n: nat): Look {
    if n == 0 then Next(0)
    else match Walk(img, wo, fname, n - 1) case Next(i) => Visit(img, wo, fname, i) case other => other
  }

  lemma {:induction false} NameFromIs(img: seq<Byte>, i: nat, name: seq<Byte>, j: nat)
    requires NameIn(img, i, name) && j <= |name|
    ensures NameFrom(img, i, j) == name[j..]
    decreases |name| - j
  {
    NameByte(img, i, name, j);
    if j < |name| { NameFromIs(img, i, name, j + 1); }
  }

  lemma VisitReads(img: seq<Byte>, wo: bool, fname: seq<Byte>, i: nat, name: seq<Byte>, deleted: bool, size: nat)
    requires NameIn(img, i, name) && FieldsIn(img, DataAt(i, |name|, wo), wo, deleted, size)
    ensures var d := DataAt(i, |name|, wo);
            Visit(img, wo, fname, i) == if SameName(name, Key(fname)) && !deleted then Found(d, size)
                else Next(Onward(d, size, wo))
  {
    hide Onward, SameName, DataAt, NameFrom;
    NameByte(img, i, name, 0);
    NameFromIs(img, i, name, 0);
  }

  /** A walk that ends without a file ends at a byte 0xFF. */
  lemma {:induction false} AbsentAt(img: seq<Byte>, wo: bool, fname: seq<Byte>, n: nat)
    ensures Walk(img, wo, fname, n).Absent? ==> var z := Walk(img, wo, fname, n).last; z < |img| && img[z] == END_MARKER
  {
    hide Onward, SameName, DataAt, NameFrom;
    if n > 0 { AbsentAt(img, wo, fname, n - 1); }
  }

  /* ---- The walk of open, as a loop ---- */

  /**
    The fields after the name's zero, at at: deletion mark, size, where the data starts and where the next name does.
   */
  method ReadFields(img: array<Byte>, wo: bool, at: nat, ghost isDeleted: bool, ghost size: nat)
    returns (deleted: bool, fsize: nat, d: nat, next: nat)
    requires FieldsIn(img[..], Align(at) + (if wo then 8 else 4), wo, isDeleted, size)
    ensures deleted == isDeleted && fsize == size && d == Align(at) + (if wo then 8 else 4)
    ensures next == Onward(d, fsize, wo)
  {
    hide Align, Wrap, FromLe32;
    d := Align(at);
    deleted := false;
    if wo {
      deleted := img[d] == FILE_DELETED;
      d := d + 4;
    }
    fsize := FromLe32(img[d], img[d + 1], img[d + 2], img[d + 3]);
    d := d + 4;
    next := Wrap(d + fsize);
    if wo {
      next := Wrap(next + 3) / 4 * 4;
    }
  }

  /** The name loop: at most 30 bytes, up to the terminating zero. */
  method ReadName(img: array<Byte>, i: nat, ghost name0: seq<Byte>) returns (name: seq<Byte>)
    requires NameIn(img[..], i, name0)
    ensures name == name0
  {
    name := [];
    var j := 0;
    while j < MAX_FNAME_LENGTH
      invariant j <= |name0| && name == name0[..j]
      decreases MAX_FNAME_LENGTH - j
    {
      NameByte(img[..], i, name0, j);
      var c := img[i + j];
      if c == 0 {
        break;
      }
      name := name + [c];
      j := j + 1;
    }
  }

  /** Name and fields of what starts at i. */
  method ReadEntry(img: array<Byte>, wo: bool, i: nat, ghost name0: seq<Byte>, ghost isDeleted: bool, ghost size: nat)
    returns (name: seq<Byte>, deleted: bool, fsize: nat, d: nat, next: nat)
    requires NameIn(img[..], i, name0) && FieldsIn(img[..], DataAt(i, |name0|, wo), wo, isDeleted, size)
    ensures name == name0 && deleted == isDeleted && fsize == size
    ensures d == DataAt(i, |name0|, wo) && next == Onward(d, size, wo)
  {
    hide NameIn, FieldsIn, Onward;
    name := ReadName(img, i, name0);
    deleted, fsize, d, next := ReadFields(img, wo, i + |name| + 1, isDeleted, size);
  }

  lemma WalkStart(img: seq<Byte>, wo: bool, fname: seq<Byte>)
    ensures Walk(img, wo, fname, 0) == Next(0)
  {
  }

  lemma WalkNext(img: seq<Byte>, wo: bool, fname: seq<Byte>, k: nat, i: nat)
    requires Walk(img, wo, fname, k) == Next(i)
    ensures Walk(img, wo, fname, k + 1) == Visit(img, wo, fname, i)
  {
    hide Visit;
  }

  /** What follows the entries of a log: its end marker, or a file that is being written. */
  datatype Tail = Closed | Pending(name: seq<Byte>, data: seq<Byte>)

  ghost predicate TailOk(img: seq<Byte>, es: seq<Entry>, wo: bool, tail: Tail) {
    && Entries(img, es, wo) && |img| <= MAX_MEDIUM
    && match tail
       case Closed => LogEnd(es, wo) < |img| && img[LogEnd(es, wo)] == END_MARKER
       case Pending(name, data) => wo && PendingAt(img, LogEnd(es, true), name, data)
  }

  /** The file being written has this name, and hides behind no entry. */
  ghost predicate FindsPending(es: seq<Entry>, tail: Tail, name: seq<Byte>) {
    tail.Pending? && NoMatch(es, name) && SameName(tail.name, name)
  }

  /** The walk for this name ends: it finds something, or does not get into the data of the file being written. */
  ghost predicate WalkEnds(es: seq<Entry>, tail: Tail, name: seq<Byte>) {
    tail.Pending? ==> !NoMatch(es, name) || SameName(tail.name, name) || tail.data == [] || tail.data[0] == END_MARKER
  }

  /** The places the walk visits: the entries, then the end, or the file being written and its data. */
  ghost function Place(es: seq<Entry>, wo: bool, tail: Tail, k: nat): nat
    requires k <= |es| + 1
  {
    if k <= |es| then Off(es, wo, k) else if tail.Pending? then DataAt(LogEnd(es, wo), |tail.name|, wo) else 0
  }

  /** What is read at the k-th place. */
  lemma PlaceReads(img: seq<Byte>, es: seq<Entry>, wo: bool, tail: Tail, fname: seq<Byte>, k: nat)
    requires TailOk(img, es, wo, tail) && k <= |es| + (if tail.Pending? then 1 else 0)
    ensures Place(es, wo, tail, k) < |img|
    ensures k < |es| ==>
      var i, e := Place(es, wo, tail, k), es[k];
      && NameIn(img, i, e.name) && FieldsIn(img, DataAt(i, |e.name|, wo), wo, e.deleted, |e.data|)
      && DataAt(i, |e.name|, wo) + |e.data| <= |img| && img[i] != END_MARKER
      && img[DataAt(i, |e.name|, wo)..DataAt(i, |e.name|, wo) + |e.data|] == e.data
      && Onward(DataAt(i, |e.name|, wo), |e.data|, wo) == Place(es, wo, tail, k + 1)
    ensures k == |es| && tail.Pending? ==>
      var i := Place(es, wo, tail, k);
      && NameIn(img, i, tail.name) && FieldsIn(img, DataAt(i, |tail.name|, wo), wo, false, 0xFFFF_FFFF)
      && img[i] != END_MARKER
      && Onward(DataAt(i, |tail.name|, wo), 0xFFFF_FFFF, wo) == Place(es, wo, tail, k + 1)
    ensures k == |es| && tail.Closed? ==> img[Place(es, wo, tail, k)] == END_MARKER
    ensures k == |es| + 1 ==> (img[Place(es, wo, tail, k)] == END_MARKER <==>
        tail.data == [] || tail.data[0] == END_MARKER)
  {
    hide EntryAt, DataAt, Onward, NameIn, FieldsIn, PendingAt;
    var i := Place(es, wo, tail, k);
    if k < |es| {
      assert EntryAt(img, i, es[k], wo);
      EntryReads(img, i, es[k], wo);
      DataOf(img, i, es[k], wo);
      NameByte(img, i, es[k].name, 0);
      OnwardIs(i, |es[k].name|, |es[k].data|, wo);
    } else if tail.Pending? {
      PendingReads(img, LogEnd(es, wo), tail.name, tail.data);
      NameByte(img, LogEnd(es, wo), tail.name, 0);
      OnwardIntoData(DataAt(LogEnd(es, wo), |tail.name|, wo));
    }
  }

  lemma AtIs(i: nat, n: nat, wo: bool)
    ensures Align(i + n + 1) + (if wo then 8 else 4) == DataAt(i, n, wo)
  {
  }

  /**
    romfs_open_file, with offsets of 32 bits: the first live entry of that name; or the file being written, if it has
    that name, with the size 0xFFFFFFFF; or where the walk ends.  steps is the number of turns of the walk.
   */
  method OpenFile(img: array<Byte>, wo: bool, fname: seq<Byte>, ghost es: seq<Entry>, ghost tail: Tail)
    returns (found: bool, base: nat, size: nat, last: nat, ghost k: nat, ghost steps: nat)
    requires TailOk(img[..], es, wo, tail) && WalkEnds(es, tail, Key(fname))
    ensures found <==> !NoMatch(es, Key(fname)) || FindsPending(es, tail, Key(fname))
    ensures found && !NoMatch(es, Key(fname)) ==>
      && IsFirstMatch(es, Key(fname), k) && base == DataAt(Off(es, wo, k), |es[k].name|, wo) && size == |es[k].data|
      && base + size <= img.Length && img[base..base + size] == es[k].data
    ensures found <==>
        (|| (exists i: nat :: IsNamed(es, i, fname))
         || (tail.Pending? && CaseEqual(tail.name, if |fname| <= 30 then fname else fname[..30])))
    ensures (exists i: nat :: IsNamed(es, i, fname)) ==> FirstNamed(es, k, fname)
    ensures found && NoMatch(es, Key(fname)) ==> base == DataAt(LogEnd(es, wo), |tail.name|, wo) && size == 0xFFFF_FFFF
    ensures !found ==> last == if tail.Closed? then LogEnd(es, wo) else DataAt(LogEnd(es, wo), |tail.name|, wo)
    ensures Walk(img[..], wo, fname, steps) == if found then Found(base, size) else Absent(last)
  {
    hide EntryAt, Off, DataAt, SameName, TailOk, NameIn, FieldsIn, Onward, Visit, Walk;
    var i := 0;
    found, base, size, last, k := false, 0, 0, 0, 0;
    assert Place(es, wo, tail, 0) == 0 by { OffZero(es, wo); }
    NamedIs(es, fname);
    if tail.Pending? { SameNameIs(tail.name, Key(fname)); }
    hide CaseEqual, IsNamed, FirstNamed;
    WalkStart(img[..], wo, fname);
    while true
      invariant k <= |es| + (if tail.Pending? then 1 else 0) && i == Place(es, wo, tail, k) && !found
      invariant forall x | 0 <= x < k && x < |es| :: !Matches(es[x], Key(fname))
      invariant k > |es| ==> !SameName(tail.name, Key(fname))
      invariant Walk(img[..], wo, fname, k) == Next(i)
      decreases |es| + 1 - k
    {
      PlaceReads(img[..], es, wo, tail, fname, k);
      WalkNext(img[..], wo, fname, k, i);
      steps := k + 1;
      if img[i] == END_MARKER {
        VisitEnd(img[..], wo, fname, i);
        last := i;
        return;
      }
      assert k <= |es|;
      ghost var name0, deleted0, size0 := if k < |es| then es[k].name else tail.name, k < |es| && es[k].deleted,
                                          if k < |es| then |es[k].data| else 0xFFFF_FFFF;
      VisitReads(img[..], wo, fname, i, name0, deleted0, size0);
      var name, deleted, fsize, j, next := ReadEntry(img, wo, i, name0, deleted0, size0);
      if SameName(name, Key(fname)) && !deleted {
        found, base, size := true, j, fsize;
        return;
      }
      i := next;
      k := k + 1;
    }
  }

  lemma VisitEnd(img: seq<Byte>, wo: bool, fname: seq<Byte>, i: nat)
    requires i < |img| && img[i] == END_MARKER
    ensures Visit(img, wo, fname, i) == Absent(i)
  {
  }

  /* ---- Looking up while a file is being written ---- */

  /** Where the walk is after k turns that found nothing. */
  lemma {:induction false} WalkReaches(img: seq<Byte>, es: seq<Entry>, wo: bool, tail: Tail, fname: seq<Byte>, k: nat)
    requires TailOk(img, es, wo, tail) && k <= |es| + (if tail.Pending? then 1 else 0)
    requires forall x | 0 <= x < k && x < |es| :: !Matches(es[x], Key(fname))
    requires k > |es| ==> !SameName(tail.name, Key(fname))
    ensures Walk(img, wo, fname, k) == Next(Place(es, wo, tail, k))
  {
    hide EntryAt, Off, DataAt, SameName, TailOk, NameIn, FieldsIn, Onward, Visit;
    OffZero(es, wo);
    if k > 0 {
      WalkReaches(img, es, wo, tail, fname, k - 1);
      PlaceReads(img, es, wo, tail, fname, k - 1);
      var i := Place(es, wo, tail, k - 1);
      if k - 1 < |es| {
        VisitReads(img, wo, fname, i, es[k - 1].name, es[k - 1].deleted, |es[k - 1].data|);
      } else {
        VisitReads(img, wo, fname, i, tail.name, false, 0xFFFF_FFFF);
      }
    }
  }

  /** Some number of turns ends the walk with this result. */
  ghost predicate WalksTo(img: seq<Byte>, wo: bool, fname: seq<Byte>, look: Look) {
    exists n: nat :: Walk(img, wo, fname, n) == look
  }

  /** A file of the log is found as ever. */
  lemma LiveNameFound(img: seq<Byte>, es: seq<Entry>, tail: Tail, fname: seq<Byte>, k: nat)
    requires TailOk(img, es, true, tail) && IsFirstMatch(es, Key(fname), k)
    ensures WalksTo(img, true, fname, Found(DataAt(Off(es, true, k), |es[k].name|, true), |es[k].data|))
  {
    hide EntryAt, Off, DataAt, SameName, TailOk, NameIn, FieldsIn, Onward, Visit;
    WalkReaches(img, es, true, tail, fname, k);
    PlaceReads(img, es, true, tail, fname, k);
    VisitReads(img, true, fname, Off(es, true, k), es[k].name, es[k].deleted, |es[k].data|);
    assert Walk(img, true, fname, k + 1) == Visit(img, true, fname, Off(es, true, k));
  }

  /** The file being written is found by its name, although it is not there yet, and with the size 0xFFFFFFFF. */
  lemma PendingNameFound(img: seq<Byte>, es: seq<Entry>, tail: Tail, fname: seq<Byte>)
    requires TailOk(img, es, true, tail) && FindsPending(es, tail, Key(fname))
    ensures WalksTo(img, true, fname, Found(DataAt(LogEnd(es, true), |tail.name|, true), 0xFFFF_FFFF))
  {
    hide EntryAt, Off, DataAt, SameName, TailOk, NameIn, FieldsIn, Onward, Visit;
    var k := |es|;
    WalkReaches(img, es, true, tail, fname, k);
    PlaceReads(img, es, true, tail, fname, k);
    VisitReads(img, true, fname, Off(es, true, k), tail.name, false, 0xFFFF_FFFF);
    assert Walk(img, true, fname, k + 1) == Visit(img, true, fname, Off(es, true, k));
  }

  /**
    Any other name is reported absent, with the walk at the start of the data of the file being written, exactly when
    that data is empty or starts with 0xFF.  Otherwise the walk takes the data for an entry.
   */
  lemma OtherNameAbsent(img: seq<Byte>, es: seq<Entry>, tail: Tail, fname: seq<Byte>)
    requires TailOk(img, es, true, tail) && tail.Pending? && NoMatch(es, Key(fname)) && !SameName(tail.name, Key(fname))
    ensures var d := DataAt(LogEnd(es, true), |tail.name|, true);
            WalksTo(img, true, fname, Absent(d)) <==> tail.data == [] || tail.data[0] == END_MARKER
  {
    hide EntryAt, Off, DataAt, SameName, TailOk, NameIn, FieldsIn, Onward, Visit;
    var d, k := DataAt(LogEnd(es, true), |tail.name|, true), |es| + 1;
    WalkReaches(img, es, true, tail, fname, k);
    PlaceReads(img, es, true, tail, fname, k);
    if img[d] == END_MARKER {
      VisitEnd(img, true, fname, d);
      assert Walk(img, true, fname, k + 1) == Visit(img, true, fname, d);
    } else {
      forall n: nat ensures Walk(img, true, fname, n) != Absent(d) { AbsentAt(img, true, fname, n); }
    }
  }

  /** A medium on which the file "a" is being written, its data so far looking like the entry of an empty file "b". */
  const BUSY_DATA: seq<Byte> := [98, 0, 0xFF, 0xFF] + [0xFF, 0xFF, 0xFF, 0xFF] + [0, 0, 0, 0]
  const BUSY_MEDIUM: seq<Byte> := [97, 0, 0xFF, 0xFF] + [0xFF, 0xFF, 0xFF, 0xFF] + [0xFF, 0xFF, 0xFF, 0xFF] +
                                  BUSY_DATA + [0xFF, 0xFF, 0xFF, 0xFF]

  /** Data that looks like an entry is taken for one: a look-up finds a file that does not exist. */
  lemma DataTakenForEntry(img: seq<Byte>, es: seq<Entry>, tail: Tail, fname: seq<Byte>, e: Entry)
    requires TailOk(img, es, true, tail) && tail.Pending? && NoMatch(es, Key(fname)) && !SameName(tail.name, Key(fname))
    requires EntryAt(img, DataAt(LogEnd(es, true), |tail.name|, true), e, true) && Matches(e, Key(fname))
    ensures var d := DataAt(LogEnd(es, true), |tail.name|, true);
            WalksTo(img, true, fname, Found(DataAt(d, |e.name|, true), |e.data|))
  {
    hide EntryAt, Off, DataAt, SameName, TailOk, NameIn, FieldsIn, Onward, Visit;
    var d, k := DataAt(LogEnd(es, true), |tail.name|, true), |es| + 1;
    WalkReaches(img, es, true, tail, fname, k);
    EntryReads(img, d, e, true);
    VisitReads(img, true, fname, d, e.name, e.deleted, |e.data|);
    assert Walk(img, true, fname, k + 1) == Visit(img, true, fname, d);
  }

  lemma BusyPending()
    ensures PendingAt(BUSY_MEDIUM, 0, [97], BUSY_DATA)
  {
    var img := BUSY_MEDIUM;
    assert DataAt(0, 1, true) == 12 && |img| == 28 && |BUSY_DATA| == 12;
    assert img[0..1] == [97] && img[12..24] == BUSY_DATA;
  }

  lemma BusyEntry()
    ensures EntryAt(BUSY_MEDIUM, 12, Entry([98], [], false), true)
  {
    var img := BUSY_MEDIUM;
    assert DataAt(12, 1, true) == 24 && |img| == 28;
    assert img[12..13] == [98] && img[20..24] == [0, 0, 0, 0] && img[24..24] == [];
  }

  lemma WrongLookupOn(img: seq<Byte>, data: seq<Byte>)
    requires |img| == 28 && PendingAt(img, 0, [97], data) && EntryAt(img, 12, Entry([98], [], false), true)
    ensures TailOk(img, [], true, Pending([97], data)) && WalksTo(img, true, [98], Found(24, 0))
    ensures NoMatch([], [98]) && !SameName([97], [98])
  {
    hide EntryAt, PendingAt;
    OffZero([], true);
    assert DataAt(0, 1, true) == 12 && DataAt(12, 1, true) == 24;
    assert Lower([97])[0] == 97 && Lower([98])[0] == 98;
    hide DataAt;
    DataTakenForEntry(img, [], Pending([97], data), [98], Entry([98], [], false));
  }

  /** On that medium a look-up finds "b", a file that does not exist. */
  lemma WrongLookup()
    ensures TailOk(BUSY_MEDIUM, [], true, Pending([97], BUSY_DATA)) && NoMatch([], [98]) && !SameName([97], [98])
    ensures WalksTo(BUSY_MEDIUM, true, [98], Found(24, 0))
  {
    BusyPending();
    BusyEntry();
    hide EntryAt, PendingAt, TailOk, WalksTo, SameName, NoMatch;
    WrongLookupOn(BUSY_MEDIUM, BUSY_DATA);
  }

  lemma OffZero(es: seq<Entry>, wo: bool)
    ensures Off(es, wo, 0) == 0
  {
  }

  lemma DataOf(img: seq<Byte>, i: nat, e: Entry, wo: bool)
    requires EntryAt(img, i, e, wo)
    ensures var d := DataAt(i, |e.name|, wo); d + |e.data| <= |img| && img[d..d + |e.data|] == e.data
  {
  }

  /** The live entries, in order. */
  ghost function Listing(es: seq<Entry>): seq<(seq<Byte>, nat)> {
    if es == [] then []
    else (if es[0].deleted then [] else [(es[0].name, |es[0].data|)]) + Listing(es[1..])
  }

  lemma ListingStep(es: seq<Entry>, k: nat)
    requires k < |es|
    ensures Listing(es[k..]) == (if es[k].deleted then [] else [(es[k].name, |es[k].data|)]) + Listing(es[k + 1..])
  {
    assert es[k..][1..] == es[k + 1..];
  }

  lemma ListingEnd(es: seq<Entry>)
    ensures Listing(es[|es|..]) == []
  {
  }

  /** readdir's name loop, which has no bound of its own. */
  method ReadDirName(img: array<Byte>, i: nat, ghost name0: seq<Byte>) returns (name: seq<Byte>, off: nat)
    requires NameIn(img[..], i, name0)
    ensures name == name0 && off == i + |name0| + 1
  {
    name := [];
    off := i;
    NameByte(img[..], i, name0, 0);
    while img[off] != 0
      invariant i <= off <= i + |name0| < img.Length && name == name0[..off - i]
      decreases i + |name0| - off
    {
      NameByte(img[..], i, name0, off - i);
      name := name + [img[off]];
      off := off + 1;
    }
    NameByte(img[..], i, name0, off - i);
    off := off + 1;
  }

  /** romfs_readdir_r: the next live entry from entry k on, and where to go on. */
  method ReadDir(img: array<Byte>, wo: bool, off0: nat, ghost es: seq<Entry>, ghost k0: nat)
    returns (more: bool, name: seq<Byte>, size: nat, off: nat, ghost k: nat)
    requires TailOk(img[..], es, wo, Closed) && k0 <= |es| && off0 == Off(es, wo, k0)
    ensures k0 <= k <= |es| && off == Off(es, wo, k)
    ensures Listing(es[k0..]) == if more then [(name, size)] + Listing(es[k..]) else []
    ensures more ==> k > k0
  {
    hide TailOk, EntryAt, Off, DataAt, Onward, Listing, NameIn, FieldsIn;
    more, name, size, off, k := false, [], 0, off0, k0;
    while true
      invariant k0 <= k <= |es| && off == Off(es, wo, k) && !more
      invariant Listing(es[k0..]) == Listing(es[k..])
      decreases |es| - k
    {
      PlaceReads(img[..], es, wo, Closed, [], k);
      if img[off] == END_MARKER {
        ListingEnd(es);
        return;
      }
      AtIs(off, |es[k].name|, wo);
      var i, deleted, d, next;
      name, i := ReadDirName(img, off, es[k].name);
      deleted, size, d, next := ReadFields(img, wo, i, es[k].deleted, |es[k].data|);
      ListingStep(es, k);
      off := next;
      k := k + 1;
      if !deleted {
        more := true;
        return;
      }
    }
  }

  /** Reading a directory to its end lists each live file once, in log order. */
  method ListAll(img: array<Byte>, wo: bool, ghost es: seq<Entry>) returns (all: seq<(seq<Byte>, nat)>)
    requires TailOk(img[..], es, wo, Closed)
    ensures all == Listing(es)
  {
    hide TailOk, Off, Listing;
    OffZero(es, wo);
    all := [];
    var off, more := 0, true;
    ghost var k := 0;
    assert es[0..] == es;
    while more
      invariant k <= |es| && off == Off(es, wo, k)
      invariant all + (if more then Listing(es[k..]) else []) == Listing(es)
      decreases more, |es| - k
    {
      var name, size;
      more, name, size, off, k := ReadDir(img, wo, off, es, k);
      if more {
        all := all + [(name, size)];
      }
    }
  }
}
