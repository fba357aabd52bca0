/**
  The file operations on a log: open, close, write, read and seek, with the write-once
  medium as an array of bytes that are 0xFF until they are programmed.
 */
module Wofs {
  import opened Octets
  import opened WofsLog

  const TOTAL_MAX_FDS: nat := 8
  const NONE: nat := 0xFFFF_FFFF
  const WOFS_MIN_NEEDED_SIZE: nat := 11
  const WOFS_DEL_FIELD_SIZE: nat := 4
  const ROMFS_SIZE_LEN: nat := 4

  /** An open file; read, write and append are the ROMFS_FILE_FLAG bits. */
  datatype Fd = Fd(base: nat, offset: nat, size: nat, read: bool, write: bool, append: bool)

  const EMPTY_FD: Fd := Fd(NONE, NONE, NONE, false, false, false)

  predicate IsEmpty(fd: Fd) { fd.base == NONE && fd.offset == NONE && fd.size == NONE }

  predicate Writes(fd: Fd) { fd.write || fd.append }

  datatype Flags = Flags(creat: bool, excl: bool, trunc: bool, wronly: bool, rdwr: bool, append: bool)

  datatype Errno = ENFILE | EEXIST | EROFS | EACCES | ENOSPC | ENOENT

  datatype Opening = Opened(fd: nat) | Failed(errno: Errno)

  datatype Whence = SeekSet | SeekCur | SeekEnd

  /** The access a set of open flags asks for. */
  function AccessOf(fl: Flags): (bool, bool, bool) {
    (!fl.wronly, fl.wronly || fl.rdwr, fl.append)
  }

  predicate WantsWrite(fl: Flags) { fl.wronly || fl.rdwr || fl.append }

  predicate MustCreate(exists_: bool, fl: Flags) {
    if exists_ then fl.trunc && (fl.wronly || fl.rdwr) else fl.creat
  }

  /** When open refuses before touching the medium. */
  function Refusal(full: bool, exists_: bool, fl: Flags, wo: bool, writing: bool): (errno: seq<Errno>) {
    if full then [ENFILE]
    else if fl.creat && fl.excl && exists_ then [EEXIST]
    else if MustCreate(exists_, fl) && !wo then [EROFS]
    else if WantsWrite(fl) && !MustCreate(exists_, fl) then [EACCES]
    else if WantsWrite(fl) && writing then [EROFS]
    else if !MustCreate(exists_, fl) && !exists_ then [ENOENT]
    else []
  }

  /* ---- The medium ---- */

  /** Every byte is as it was, or was blank before. */
  ghost predicate WriteOnce(img: seq<Byte>, img': seq<Byte>) {
    |img'| == |img| && forall x | 0 <= x < |img| && img[x] != END_MARKER :: img'[x] == img[x]
  }

  /** So over a run a byte changes at most once, away from 0xFF. */
  lemma WriteOnceRun(imgs: seq<seq<Byte>>, i: nat, j: nat, k: nat, x: nat)
    requires i <= j <= k < |imgs| && (forall n | 0 < n < |imgs| :: WriteOnce(imgs[n - 1], imgs[n]))
    requires x < |imgs[i]|
    ensures |imgs[i]| == |imgs[j]| == |imgs[k]| &&
        (imgs[i][x] != imgs[j][x] ==> imgs[i][x] == END_MARKER && imgs[k][x] == imgs[j][x])
  {
    WriteOnceFrom(imgs, i, j);
    WriteOnceFrom(imgs, j, k);
  }

  lemma {:induction false} WriteOnceFrom(imgs: seq<seq<Byte>>, i: nat, j: nat)
    requires i <= j < |imgs| && forall n | 0 < n < |imgs| :: WriteOnce(imgs[n - 1], imgs[n])
    ensures WriteOnce(imgs[i], imgs[j])
    decreases j
  {
    if i < j {
      WriteOnceFrom(imgs, i, j - 1);
      assert WriteOnce(imgs[j - 1], imgs[j]);
    }
  }

  /** Programming bytes into blank cells. */
  ghost function Programmed(img: seq<Byte>, at: nat, bytes: seq<Byte>): seq<Byte>
    requires at + |bytes| <= |img|
  {
    img[..at] + bytes + img[at + |bytes|..]
  }

  lemma ProgrammedAt(img: seq<Byte>, at: nat, bytes: seq<Byte>)
    requires at + |bytes| <= |img|
    ensures var img' := Programmed(img, at, bytes);
            && |img'| == |img| && img'[at..at + |bytes|] == bytes
            && (forall x | 0 <= x < |img| && (x < at || x >= at + |bytes|) :: img'[x] == img[x])
            && (forall x | at <= x < at + |bytes| :: img'[x] == bytes[x - at])
  {
  }

  ghost predicate MediumOk(img: seq<Byte>, es: seq<Entry>, wo: bool, writing: bool, pname: seq<Byte>,
      pdata: seq<Byte>) {
    && |img| <= 0x7FFF_FFF0
    && if writing then wo && |img| % 4 == 0 && Entries(img, es, true) && PendingAt(img, LogEnd(es, true), pname, pdata)
       else LogOk(img, es, wo) && (wo ==> |img| % 4 == 0 && BlankFrom(img, LogEnd(es, true)))
  }

  /** What entry k keeps in its deletion field. */
  lemma DelBytes(img: seq<Byte>, i: nat, e: Entry)
    requires EntryAt(img, i, e, true) && !e.deleted
    ensures var d := DataAt(i, |e.name|, true); d <= |img| && forall x | d - 8 <= x < d - 4 :: img[x] == END_MARKER
  {
  }

  ghost const TOMBSTONE: seq<Byte> := [FILE_DELETED, END_MARKER, END_MARKER, END_MARKER]

  /** Marking entry k deleted. */
  lemma TombstoneMedium(img: seq<Byte>, es: seq<Entry>, k: nat)
    requires MediumOk(img, es, true, false, [], []) && k < |es| && !es[k].deleted
    ensures var d := DataAt(Off(es, true, k), |es[k].name|, true);
            && d <= |img| && (forall x | d - 8 <= x < d - 4 :: img[x] == END_MARKER)
            && var img' := Programmed(img, d - 8, TOMBSTONE);
               MediumOk(img', Tombstoned(es, k), true, false, [], []) && WriteOnce(img, img') &&
                   LogEnd(Tombstoned(es, k), true) == LogEnd(es, true)
  {
    hide EntryAt, Programmed, DataAt, Off, NextAt;
    var d := DataAt(Off(es, true, k), |es[k].name|, true);
    assert EntryAt(img, Off(es, true, k), es[k], true);
    DelBytes(img, Off(es, true, k), es[k]);
    var img' := Programmed(img, d - 8, TOMBSTONE);
    ProgrammedAt(img, d - 8, TOMBSTONE);
    assert img' == img[d - 8 := FILE_DELETED];
    OffOrder(es, true, k, |es|);
    EntriesTombstone(img, img', es, k);
    hide Entries, LogEnd;
  }

  /** Writing the name of a new file at the end of the log. */
  lemma CreateMedium(img: seq<Byte>, es: seq<Entry>, name: seq<Byte>)
    requires MediumOk(img, es, true, false, [], []) && GoodName(name) && |img| - LogEnd(es, true) >= |name| + 15
    ensures var z := LogEnd(es, true); var img' := Programmed(img, z, name + [0]);
            MediumOk(img', es, true, true, name, []) && WriteOnce(img, img') && DataAt(z, |name|, true) + 4 <= |img|
  {
    hide EntryAt, Programmed, Off;
    var z := LogEnd(es, true);
    OffAligned(es, |es|);
    var img' := Programmed(img, z, name + [0]);
    ProgrammedAt(img, z, name + [0]);
    EntriesFrame(img, img', es, true);
    hide Entries, LogEnd, GoodName;
    NewName(img, img', z, name);
  }

  lemma NewName(img: seq<Byte>, img': seq<Byte>, z: nat, name: seq<Byte>)
    requires BlankFrom(img, z) && GoodName(name) && |img| - z >= |name| + 15 && z % 4 == 0 && |img| % 4 == 0
    requires |img'| == |img| && img'[z..z + |name| + 1] == name + [0] &&
        forall x | z + |name| + 1 <= x < |img| :: img'[x] == img[x]
    ensures PendingAt(img', z, name, []) && DataAt(z, |name|, true) + 4 <= |img|
  {
    var n := |name|;
    var f := img'[z..z + n + 1];
    assert f[n] == img'[z + n];
    assert img'[z..z + n] == f[..n];
  }

  /** Appending to the file being written. */
  lemma WriteMedium(img: seq<Byte>, es: seq<Entry>, name: seq<Byte>, data: seq<Byte>, bytes: seq<Byte>)
    requires MediumOk(img, es, true, true, name, data) &&
        DataAt(LogEnd(es, true), |name|, true) + |data| + |bytes| + 4 <= |img|
    ensures var img' := Programmed(img, DataAt(LogEnd(es, true), |name|, true) + |data|, bytes);
            MediumOk(img', es, true, true, name, data + bytes) && WriteOnce(img, img')
  {
    hide EntryAt, Programmed, DataAt, Off;
    var z := LogEnd(es, true);
    var d := DataAt(z, |name|, true);
    var img' := Programmed(img, d + |data|, bytes);
    ProgrammedAt(img, d + |data|, bytes);
    EntriesFrame(img, img', es, true);
    hide Entries, LogEnd, GoodName;
    MoreData(img, img', z, name, data, bytes);
  }

  lemma MoreData(img: seq<Byte>, img': seq<Byte>, z: nat, name: seq<Byte>, data: seq<Byte>, bytes: seq<Byte>)
    requires PendingAt(img, z, name, data) && |img'| == |img|
    requires var t := DataAt(z, |name|, true) + |data|;
             && t + |bytes| + 4 <= |img| && img'[t..t + |bytes|] == bytes
             && forall x | 0 <= x < |img| && (x < t || x >= t + |bytes|) :: img'[x] == img[x]
    ensures PendingAt(img', z, name, data + bytes)
  {
    hide GoodName, DataAt;
    var d := DataAt(z, |name|, true);
    assert img'[z..z + |name|] == img[z..z + |name|];
    assert img'[d..d + |data|] == img[d..d + |data|];
    assert img'[d..d + |data + bytes|] == img'[d..d + |data|] + img'[d + |data|..d + |data| + |bytes|];
  }

  /** Writing back the size turns the file being written into the last entry of the log. */
  lemma CloseMedium(img: seq<Byte>, es: seq<Entry>, name: seq<Byte>, data: seq<Byte>)
    requires MediumOk(img, es, true, true, name, data)
    ensures var img', e := Programmed(img, DataAt(LogEnd(es, true), |name|, true) - 4, Le32(|data|)),
        Entry(name, data, false);
            MediumOk(img', es + [e], true, false, [], []) && WriteOnce(img, img')
  {
    hide Programmed, EntryAt, DataAt, Off, Le32;
    var z := LogEnd(es, true);
    var d, e := DataAt(z, |name|, true), Entry(name, data, false);
    var img', es' := Programmed(img, d - 4, Le32(|data|)), es + [e];
    ProgrammedAt(img, d - 4, Le32(|data|));
    ClosedEntry(img, img', z, name, data);
    EntriesFrame(img, img', es, true);
    EntriesAppend(img', es, e);
    assert LogEnd(es', true) == Align(d + |data|);
    hide Entries, LogEnd, GoodName;
  }

  lemma EntriesAppend(img: seq<Byte>, es: seq<Entry>, e: Entry)
    requires Entries(img, es, true) && EntryAt(img, LogEnd(es, true), e, true)
    ensures Entries(img, es + [e], true) && LogEnd(es + [e], true) ==
        Align(DataAt(LogEnd(es, true), |e.name|, true) + |e.data|)
  {
    hide EntryAt, DataAt, Off;
    var es' := es + [e];
    OffAppend(es, e);
    forall k | 0 <= k < |es'| ensures EntryAt(img, Off(es', true, k), es'[k], true) {
      OffSame(es, es', true, if k <= |es| then k else 0);
      if k < |es| { assert es'[k] == es[k]; }
    }
  }

  lemma OffAppend(es: seq<Entry>, e: Entry)
    ensures LogEnd(es + [e], true) == Align(DataAt(LogEnd(es, true), |e.name|, true) + |e.data|)
  {
    OffSame(es, es + [e], true, |es|);
  }

  lemma ClosedEntry(img: seq<Byte>, img': seq<Byte>, z: nat, name: seq<Byte>, data: seq<Byte>)
    requires PendingAt(img, z, name, data) && |img'| == |img| <= 0xFFFF_FFF0
    requires var d := DataAt(z, |name|, true);
             img'[d - 4..d] == Le32(|data|) && forall x | 0 <= x < |img| && (x < d - 4 || x >= d) :: img'[x] == img[x]
    ensures EntryAt(img', z, Entry(name, data, false), true)
  {
    var d := DataAt(z, |name|, true);
    assert img'[z..z + |name|] == img[z..z + |name|];
    assert img'[d..d + |data|] == img[d..d + |data|];
  }

  /* ---- The descriptor table ---- */

  ghost predicate FileIs(es: seq<Entry>, wo: bool, k: nat, base: nat, size: nat) {
    k < |es| && base == DataAt(Off(es, wo, k), |es[k].name|, wo) && size == |es[k].data|
  }

  /** base and size are those of some entry of the log. */
  ghost predicate IsFile(es: seq<Entry>, wo: bool, base: nat, size: nat) {
    exists k: nat :: FileIs(es, wo, k, base, size)
  }

  /** Descriptor i: unused, or the file being written, or a file of the log opened for reading. */
  ghost predicate FdOk(fd: Fd, mine: bool, es: seq<Entry>, wo: bool, pname: seq<Byte>, pdata: seq<Byte>) {
    if mine then !IsEmpty(fd) && fd.offset <= fd.size == |pdata| && fd.base == DataAt(LogEnd(es, true), |pname|, true)
    else IsEmpty(fd) || (fd.offset <= fd.size && fd.read && !Writes(fd) && IsFile(es, wo, fd.base, fd.size))
  }

  ghost function OpenSet(fds: seq<Fd>): set<nat> {
    set i: nat | i < |fds| && !IsEmpty(fds[i])
  }

  ghost predicate TableOk(fds: seq<Fd>, numFd: nat, wfd: nat, es: seq<Entry>, wo: bool, pname: seq<Byte>,
      pdata: seq<Byte>) {
    && |fds| == TOTAL_MAX_FDS && numFd == |OpenSet(fds)|
    && forall i | 0 <= i < |fds| :: FdOk(fds[i], i == wfd, es, wo, pname, pdata)
  }

  lemma SomeEmpty(fds: seq<Fd>)
    requires |fds| == TOTAL_MAX_FDS
    ensures (|OpenSet(fds)| == TOTAL_MAX_FDS) <==> (forall i | 0 <= i < |fds| :: !IsEmpty(fds[i]))
    ensures |OpenSet(fds)| <= TOTAL_MAX_FDS
  {
    var all: set<nat> := {0, 1, 2, 3, 4, 5, 6, 7};
    assert |all| == 8;
    SubsetSize(OpenSet(fds), all);
    if forall i | 0 <= i < |fds| :: !IsEmpty(fds[i]) {
      assert OpenSet(fds) == all;
    } else {
      var i :| 0 <= i < |fds| && IsEmpty(fds[i]);
      SubsetSize(OpenSet(fds), all - {i});
    }
  }

  lemma {:induction false} SubsetSize(a: set<nat>, b: set<nat>)
    requires a <= b
    ensures |a| <= |b|
  {
    if a != {} {
      var x :| x in a;
      SubsetSize(a - {x}, b - {x});
    }
  }

  /** A descriptor goes into an empty slot, or a slot is emptied. */
  lemma OpenSetChange(fds: seq<Fd>, i: nat, fd: Fd)
    requires i < |fds|
    ensures IsEmpty(fds[i]) && !IsEmpty(fd) ==> |OpenSet(fds[i := fd])| == |OpenSet(fds)| + 1
    ensures !IsEmpty(fds[i]) && IsEmpty(fd) ==> |OpenSet(fds[i := fd])| == |OpenSet(fds)| - 1
    ensures IsEmpty(fds[i]) == IsEmpty(fd) ==> OpenSet(fds[i := fd]) == OpenSet(fds)
  {
    var fds' := fds[i := fd];
    if IsEmpty(fds[i]) && !IsEmpty(fd) { assert OpenSet(fds') == OpenSet(fds) + {i}; }
    if !IsEmpty(fds[i]) && IsEmpty(fd) { assert OpenSet(fds') == OpenSet(fds) - {i}; }
  }

  /** A file of the log is still one when the log has grown or an entry was deleted. */
  lemma FileStays(es: seq<Entry>, es': seq<Entry>, wo: bool, base: nat, size: nat)
    requires IsFile(es, wo, base, size) && |es| <= |es'|
    requires forall i | 0 <= i < |es| :: es'[i].name == es[i].name && es'[i].data == es[i].data
    ensures IsFile(es', wo, base, size)
  {
    hide DataAt, Off;
    var k: nat :| FileIs(es, wo, k, base, size);
    OffSame(es, es', wo, k);
    assert FileIs(es', wo, k, base, size);
  }

  lemma TableStays(fds: seq<Fd>, numFd: nat, es: seq<Entry>, es': seq<Entry>, wo: bool)
    requires TableOk(fds, numFd, TOTAL_MAX_FDS, es, wo, [], []) && |es| <= |es'|
    requires forall i | 0 <= i < |es| :: es'[i].name == es[i].name && es'[i].data == es[i].data
    ensures TableOk(fds, numFd, TOTAL_MAX_FDS, es', wo, [], [])
  {
    hide IsFile, OpenSet;
    forall i | 0 <= i < |fds| ensures FdOk(fds[i], false, es', wo, [], []) {
      assert FdOk(fds[i], false, es, wo, [], []);
      if !IsEmpty(fds[i]) { FileStays(es, es', wo, fds[i].base, fds[i].size); }
    }
  }

  /** The contents a descriptor for reading gives access to. */
  lemma FileContents(img: seq<Byte>, es: seq<Entry>, wo: bool, k: nat, base: nat, size: nat)
    requires Entries(img, es, wo) && FileIs(es, wo, k, base, size)
    ensures base + size <= |img| && img[base..base + size] == es[k].data
  {
    hide Off;
    assert EntryAt(img, Off(es, wo, k), es[k], wo);
  }

  ghost predicate NamesOk(es: seq<Entry>) {
    UniqueLive(es) && forall i | 0 <= i < |es| :: es[i].name != [1]
  }

  lemma NoInvalidName(es: seq<Entry>)
    requires NamesOk(es)
    ensures NoMatch(es, [1])
  {
    forall i | 0 <= i < |es| ensures !Matches(es[i], [1]) { LowerOne(es[i].name); }
  }

  lemma LowerOne(name: seq<Byte>)
    ensures SameName(name, [1]) ==> name == [1]
  {
    if |name| == 1 { assert Lower(name)[0] == LowerChar(name[0]) && Lower([1])[0] == 1; }
  }
}
