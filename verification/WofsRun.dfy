/** The mounted file system does what the store says, call by call and over whole runs. */
module WofsRun {
  import opened Octets
  import opened WofsLog
  import opened Wofs
  import opened WofsFiles
  import S = WofsStore

  ghost predicate StateOk(s: State, wo: bool) {
    && MediumOk(s.flash, s.es, wo, s.writing, s.pname, s.pdata)
    && TableOk(s.fds, s.numFd, s.wfd, s.es, wo, s.pname, s.pdata)
    && NamesOk(s.es) && (s.writing ==> NoMatch(s.es, s.pname) && s.pname != [1])
    && (!s.writing ==> s.pname == [] && s.pdata == [] && s.wfd == TOTAL_MAX_FDS)
    && s.wfd <= TOTAL_MAX_FDS
  }

  /** What a descriptor stands for. */
  ghost function HandleFor(flash: seq<Byte>, fd: Fd, mine: bool): S.Handle {
    if IsEmpty(fd) then S.Free
    else if mine then S.Creator(fd.read, fd.write, fd.append, fd.offset)
    else S.Reader(Slice(flash, fd.base, fd.size), fd.offset)
  }

  ghost function Handles(s: State): (hs: seq<S.Handle>)
    ensures |hs| == |s.fds| && forall i | 0 <= i < |hs| :: hs[i] == HandleFor(s.flash, s.fds[i], i == s.wfd)
  {
    seq(|s.fds|, i requires 0 <= i < |s.fds| => HandleFor(s.flash, s.fds[i], i == s.wfd))
  }

  /** What the file system stands for. */
  ghost function View(s: State): S.Store {
    S.Store(FileMap(s.es), LogEnd(s.es, true), if s.writing then S.Writing(s.pname, s.pdata) else S.Nothing, Handles(s))
  }

  /* ---- Descriptors that a call does not touch ---- */

  /** A reader's bytes are those of its entry. */
  lemma ReaderContents(flash: seq<Byte>, es: seq<Entry>, wo: bool, writing: bool, pname: seq<Byte>, pdata: seq<Byte>,
                       k: nat, base: nat, size: nat)
    requires MediumOk(flash, es, wo, writing, pname, pdata) && FileIs(es, wo, k, base, size)
    ensures Slice(flash, base, size) == es[k].data
  {
    hide Off, DataAt, EntryAt, PendingAt;
    FileContents(flash, es, wo, k, base, size);
  }

  /** A reader still reads the same while its entry is there, marked deleted or not. */
  lemma ReaderStays(s: State, t: State, wo: bool, i: nat)
    requires StateOk(s, wo) && StateOk(t, wo) && KeepsEntries(s.es, t.es)
    requires i < |s.fds| && !IsEmpty(s.fds[i]) && i != s.wfd
    ensures Slice(t.flash, s.fds[i].base, s.fds[i].size) == Slice(s.flash, s.fds[i].base, s.fds[i].size)
  {
    hide MediumOk, NamesOk, Off, DataAt, Slice, OpenSet;
    var fd := s.fds[i];
    assert FdOk(fd, false, s.es, wo, s.pname, s.pdata);
    var k: nat :| FileIs(s.es, wo, k, fd.base, fd.size);
    OffSame(s.es, t.es, wo, k);
    assert FileIs(t.es, wo, k, fd.base, fd.size);
    ReaderContents(s.flash, s.es, wo, s.writing, s.pname, s.pdata, k, fd.base, fd.size);
    ReaderContents(t.flash, t.es, wo, t.writing, t.pname, t.pdata, k, fd.base, fd.size);
  }

  /** The handles of a state that differs from s in descriptor fd at most. */
  lemma HandlesChange(s: State, t: State, wo: bool, fd: nat)
    requires StateOk(s, wo) && StateOk(t, wo) && KeepsEntries(s.es, t.es)
    requires fd < |s.fds| == |t.fds| && forall i | 0 <= i < |s.fds| && i != fd :: t.fds[i] == s.fds[i]
    requires t.wfd == s.wfd || ((s.wfd == fd || s.wfd >= |s.fds|) && (t.wfd == fd || t.wfd >= |s.fds|))
    ensures Handles(t) == Handles(s)[fd := HandleFor(t.flash, t.fds[fd], fd == t.wfd)]
  {
    hide StateOk, Slice, KeepsEntries;
    forall i | 0 <= i < |s.fds| && i != fd ensures Handles(t)[i] == Handles(s)[i] {
      if !IsEmpty(s.fds[i]) && i != s.wfd { ReaderStays(s, t, wo, i); }
    }
  }

  /** The table is full exactly when no handle is free. */
  lemma FullIs(s: State, wo: bool)
    requires StateOk(s, wo)
    ensures |s.fds| == TOTAL_MAX_FDS && (S.IsFull(View(s)) <==> s.numFd == TOTAL_MAX_FDS)
    ensures forall i | 0 <= i < |s.fds| :: Handles(s)[i] == S.Free <==> IsEmpty(s.fds[i])
  {
    hide MediumOk, NamesOk, FdOk, OpenSet;
    SomeEmpty(s.fds);
  }

  lemma FirstFreeIs(s: State, wo: bool, i: nat)
    requires StateOk(s, wo) && IsFirstEmpty(s.fds, i)
    ensures S.FirstFree(Handles(s), 0) == i < |s.fds| && IsEmpty(s.fds[i]) && i != s.wfd
  {
    hide MediumOk, NamesOk, OpenSet;
    FullIs(s, wo);
    assert FdOk(s.fds[i], i == s.wfd, s.es, wo, s.pname, s.pdata);
  }

  lemma HandlesSame(s: State, t: State, wo: bool)
    requires StateOk(s, wo) && StateOk(t, wo) && KeepsEntries(s.es, t.es) && t.fds == s.fds && t.wfd == s.wfd
    ensures Handles(t) == Handles(s)
  {
    hide StateOk, Slice, KeepsEntries;
    forall i | 0 <= i < |s.fds| ensures Handles(t)[i] == Handles(s)[i] {
      if !IsEmpty(s.fds[i]) && i != s.wfd { ReaderStays(s, t, wo, i); }
    }
  }

  /* ---- Each call ---- */

  lemma OpenReadRefines(s: State, t: State, path: seq<Byte>, wo: bool, r: Opening)
    requires StateOk(s, wo) && StateOk(t, wo) && OpenReads(s, t, path, r)
    ensures r.Opened? && r.fd == S.FirstFree(Handles(s), 0) < |Handles(s)| && Lower(path) in FileMap(s.es)
    ensures View(t) == S.WithHandle(View(s), r.fd, S.Reader(FileMap(s.es)[Lower(path)], 0))
  {
    hide StateOk, FileMap, LogEnd, IsFirstEmpty, S.FirstFree;
    FirstFreeIs(s, wo, r.fd);
    HandlesChange(s, t, wo, r.fd);
    NotEmptyFd(t, wo, r.fd);
  }

  /** What a descriptor that gives access to bytes of the medium cannot be. */
  lemma NotEmptyFd(s: State, wo: bool, i: nat)
    requires StateOk(s, wo) && i < |s.fds| && s.fds[i].base + s.fds[i].size <= |s.flash|
    ensures !IsEmpty(s.fds[i])
  {
    hide TableOk, NamesOk;
  }

  lemma OpenCreateRefines(s: State, t: State, path: seq<Byte>, fl: Flags, wo: bool, r: Opening)
    requires StateOk(s, wo) && StateOk(t, wo) && OpenCreates(s, t, path, fl, r) && !s.writing && s.numFd < TOTAL_MAX_FDS
    ensures S.Created(View(s), path, fl, |s.flash|) == (View(t), r)
  {
    hide FileMap, LogEnd, IsFirstEmpty, S.FirstFree, MediumOk, NamesOk, DataAt, OpenSet;
    FullIs(s, wo);
    if r.Opened? {
      FirstFreeIs(s, wo, r.fd);
      HandlesChange(s, t, wo, r.fd);
      assert FdOk(t.fds[r.fd], true, t.es, wo, t.pname, t.pdata);
    } else {
      HandlesSame(s, t, wo);
    }
  }

  lemma OpenRefines(s: State, t: State, path: seq<Byte>, fl: Flags, wo: bool, r: Opening)
    requires StateOk(s, wo) && StateOk(t, wo) && OpenEffect(s, t, path, fl, wo, r)
    requires s.writing && Lower(path) !in FileMap(s.es) && fl.creat ==> WantsWrite(fl)
    ensures S.OpenStep(View(s), path, fl, wo, |s.flash|) == (View(t), r)
  {
    hide StateOk, FileMap, OpenCreates, OpenReads, S.Created, S.FirstFree, LogEnd, S.IsFull;
    FullIs(s, wo);
    var exists_ := Lower(path) in FileMap(s.es);
    if Refusal(s.numFd == TOTAL_MAX_FDS, exists_, fl, wo, s.writing) == [] {
      if MustCreate(exists_, fl) {
        TableHolds(s, wo);
        OpenCreateRefines(s, t, path, fl, wo, r);
      } else {
        OpenReadRefines(s, t, path, wo, r);
      }
    }
  }

  lemma TableHolds(s: State, wo: bool)
    requires StateOk(s, wo)
    ensures s.numFd <= TOTAL_MAX_FDS == |s.fds|
  {
    hide MediumOk, NamesOk, FdOk, OpenSet;
    SomeEmpty(s.fds);
  }

  /** What an open descriptor is. */
  lemma OpenHandle(s: State, wo: bool, fd: nat)
    requires StateOk(s, wo) && S.IsOpen(View(s), fd)
    ensures fd < |s.fds| == TOTAL_MAX_FDS && !IsEmpty(s.fds[fd])
    ensures S.HandleWrites(Handles(s)[fd]) <==> Writes(s.fds[fd])
    ensures S.CanRead(Handles(s)[fd]) <==> s.fds[fd].read
    ensures Handles(s)[fd].offset == s.fds[fd].offset <= s.fds[fd].size && (Handles(s)[fd].Creator? <==> fd == s.wfd)
    ensures Writes(s.fds[fd]) ==> s.writing && fd == s.wfd
    ensures fd == s.wfd ==>
      && s.writing && s.fds[fd].size == |s.pdata| && s.fds[fd].base == DataAt(LogEnd(s.es, true), |s.pname|, true)
      && Handles(s)[fd] == S.Creator(s.fds[fd].read, s.fds[fd].write, s.fds[fd].append, s.fds[fd].offset)
    ensures fd != s.wfd ==> Handles(s)[fd] == S.Reader(Slice(s.flash, s.fds[fd].base, s.fds[fd].size), s.fds[fd].offset)
  {
    hide MediumOk, NamesOk, DataAt, LogEnd, IsFile, Slice, OpenSet;
    assert FdOk(s.fds[fd], fd == s.wfd, s.es, wo, s.pname, s.pdata);
  }

  /** The bytes a descriptor gives access to are its handle's contents. */
  lemma ContentsAre(s: State, wo: bool, fd: nat)
    requires StateOk(s, wo) && S.IsOpen(View(s), fd) && fd < |s.fds|
    ensures s.fds[fd].base + s.fds[fd].size <= |s.flash|
    ensures S.Contents(View(s), Handles(s)[fd]) == s.flash[s.fds[fd].base..s.fds[fd].base + s.fds[fd].size]
  {
    OpenHandle(s, wo, fd);
    var f := s.fds[fd];
    hide DataAt, LogEnd, NamesOk, FileMap, Entries, OpenSet;
    if fd == s.wfd {
      PendingHolds(s.flash, LogEnd(s.es, true), s.pname, s.pdata);
    } else {
      assert FdOk(f, false, s.es, wo, s.pname, s.pdata);
      FdInMedium(s.flash, f, false, s.es, wo, s.writing, s.pname, s.pdata);
    }
  }

  lemma PendingHolds(img: seq<Byte>, i: nat, name: seq<Byte>, data: seq<Byte>)
    requires PendingAt(img, i, name, data)
    ensures var d := DataAt(i, |name|, true); d + |data| <= |img| && img[d..d + |data|] == data
  {
  }

  lemma CloseRefines(s: State, t: State, wo: bool, fd: nat)
    requires StateOk(s, wo) && StateOk(t, wo) && S.IsOpen(View(s), fd) && fd < |s.fds| && t.fds == s.fds[fd := EMPTY_FD]
    requires Writes(s.fds[fd]) ==> !t.writing && t.es == s.es + [Entry(s.pname, s.pdata, false)]
    requires Writes(s.fds[fd]) ==> FileMap(t.es) == FileMap(s.es)[Lower(s.pname) := s.pdata]
    requires !Writes(s.fds[fd]) ==>
      && t.writing == s.writing && t.es == s.es && t.pname == s.pname && t.pdata == s.pdata && t.flash == s.flash
      && t.wfd == if fd == s.wfd then TOTAL_MAX_FDS else s.wfd
    ensures S.CloseStep(View(s), fd) == View(t)
  {
    hide StateOk, FileMap, DataAt, Slice, LogEnd, NextAt, Handles;
    OpenHandle(s, wo, fd);
    assert KeepsEntries(s.es, t.es);
    if Writes(s.fds[fd]) {
      NoWriter(t, wo);
      GrownLog(s.es, s.pname, s.pdata);
    }
    HandlesChange(s, t, wo, fd);
  }

  lemma NoWriter(s: State, wo: bool)
    requires StateOk(s, wo) && !s.writing
    ensures s.wfd == TOTAL_MAX_FDS
  {
  }

  lemma GrownLog(es: seq<Entry>, name: seq<Byte>, data: seq<Byte>)
    ensures LogEnd(es + [Entry(name, data, false)], true) == NextAt(LogEnd(es, true), |name|, |data|, true)
  {
    hide DataAt, LogEnd;
    OffAppend(es, Entry(name, data, false));
  }

  lemma WriteRefines(s: State, t: State, wo: bool, fd: nat, bytes: seq<Byte>, n: int)
    requires StateOk(s, wo) && StateOk(t, wo) && S.IsOpen(View(s), fd) && fd < |s.fds| && |t.flash| == |s.flash|
    requires t.es == s.es && t.writing == s.writing && t.pname == s.pname && t.wfd == s.wfd && t.numFd == s.numFd
    requires !Writes(s.fds[fd]) ==> n == -1
    requires Writes(s.fds[fd]) && !s.fds[fd].append && s.fds[fd].offset != s.fds[fd].size ==> n == 0
    requires !Writes(s.fds[fd]) || (!s.fds[fd].append && s.fds[fd].offset != s.fds[fd].size) ==> t == s
    requires Writes(s.fds[fd]) && (s.fds[fd].append || s.fds[fd].offset == s.fds[fd].size) ==>
      && n == Accepted(|bytes|, |s.flash|, s.fds[fd]) && 0 <= n <= |bytes| && t.pdata == s.pdata + bytes[..n]
      && t.fds == s.fds[fd := s.fds[fd].(offset := |t.pdata|, size := |t.pdata|)]
    ensures S.WriteStep(View(s), fd, bytes, |s.flash|) == (View(t), n)
  {
    hide StateOk, FileMap, DataAt, Slice, LogEnd, Handles;
    OpenHandle(s, wo, fd);
    if Writes(s.fds[fd]) && (s.fds[fd].append || s.fds[fd].offset == s.fds[fd].size) {
      HandlesChange(s, t, wo, fd);
      StillOpen(t, wo, fd);
    }
  }

  lemma StillOpen(s: State, wo: bool, fd: nat)
    requires StateOk(s, wo) && fd == s.wfd < |s.fds|
    ensures !IsEmpty(s.fds[fd])
  {
    hide MediumOk, NamesOk, OpenSet;
    assert FdOk(s.fds[fd], true, s.es, wo, s.pname, s.pdata);
  }

  /** A move of the offset of descriptor fd. */
  lemma MoveRefines(s: State, t: State, wo: bool, fd: nat, off: nat)
    requires StateOk(s, wo) && StateOk(t, wo) && S.IsOpen(View(s), fd) && fd < |s.fds| && off <= s.fds[fd].size
    requires t == s.(fds := s.fds[fd := s.fds[fd].(offset := off)])
    ensures View(t) == S.WithHandle(View(s), fd, Handles(s)[fd].(offset := off))
  {
    hide StateOk, FileMap, LogEnd, Slice, Handles;
    OpenHandle(s, wo, fd);
    HandlesChange(s, t, wo, fd);
    ContentsAre(s, wo, fd);
    MovedOpen(s, wo, fd, off);
  }

  lemma MovedOpen(s: State, wo: bool, fd: nat, off: nat)
    requires StateOk(s, wo) && fd < |s.fds| && s.fds[fd].base + s.fds[fd].size <= |s.flash|
    ensures !IsEmpty(s.fds[fd].(offset := off))
  {
    hide TableOk, NamesOk;
  }

  lemma ReadRefines(s: State, t: State, wo: bool, fd: nat, len: nat, n: int, bytes: seq<Byte>)
    requires StateOk(s, wo) && StateOk(t, wo) && S.IsOpen(View(s), fd) && fd < |s.fds|
    requires !s.fds[fd].read ==> n == -1 && bytes == [] && t == s
    requires s.fds[fd].read ==>
      && s.fds[fd].base + s.fds[fd].size <= |s.flash| && s.fds[fd].offset <= s.fds[fd].size
      && n == Clip(len, s.fds[fd].size - s.fds[fd].offset)
      && bytes == Slice(s.flash, s.fds[fd].base + s.fds[fd].offset, n)
      && t == s.(fds := s.fds[fd := s.fds[fd].(offset := s.fds[fd].offset + n)])
    ensures S.ReadStep(View(s), fd, len) == (View(t), n, bytes)
  {
    hide StateOk, FileMap, LogEnd, Slice, Handles;
    OpenHandle(s, wo, fd);
    if s.fds[fd].read {
      ContentsAre(s, wo, fd);
      MoveRefines(s, t, wo, fd, s.fds[fd].offset + n);
      SliceWithin(s.flash, s.fds[fd].base, s.fds[fd].size, s.fds[fd].offset, n);
    }
  }

  lemma LseekRefines(s: State, t: State, wo: bool, fd: nat, off: int, whence: Whence, pos: int)
    requires StateOk(s, wo) && StateOk(t, wo) && S.IsOpen(View(s), fd) && fd < |s.fds|
    requires var f := s.fds[fd]; var target := SeekTarget(f, off, whence);
             if 0 <= target <= f.size then pos == target && t == s.(fds := s.fds[fd := f.(offset := target)])
                 else pos == -1 && t == s
    ensures S.LseekStep(View(s), fd, off, whence) == (View(t), pos)
  {
    hide StateOk, FileMap, LogEnd, Slice, Handles;
    OpenHandle(s, wo, fd);
    ContentsAre(s, wo, fd);
    if pos >= 0 { MoveRefines(s, t, wo, fd, pos); }
  }

  /* ---- Runs ---- */

  /** One call. */
  method DoOpen(fs: FileSystem, path: seq<Byte>, fl: Flags) returns (reply: S.Reply)
    requires fs.Valid() && S.CallOk(View(fs.St()), S.CallOpen(path, fl))
    modifies fs.flash, fs.fds, fs`numFd, fs`writing, fs`es, fs`pname, fs`pdata, fs`wfd
    ensures fs.Valid() && WriteOnce(old(fs.flash[..]), fs.flash[..])
    ensures S.Step(old(View(fs.St())), S.CallOpen(path, fl), fs.wo, fs.flash.Length) == (View(fs.St()), reply)
  {
    hide MediumOk, TableOk, NamesOk, FileMap, WriteOnce, OpenEffect, Handles, LogEnd, S.OpenStep, NoMatch, UniqueLive,
        GoodName;
    ghost var s := fs.St();
    Uniquely(s.es);
    MapFinds(s.es, path);
    var r := fs.Open(path, fl);
    OpenRefines(s, fs.St(), path, fl, fs.wo, r);
    reply := S.ReplyOpen(r);
  }

  lemma Uniquely(es: seq<Entry>)
    requires NamesOk(es)
    ensures UniqueLive(es)
  {
  }

  method DoClose(fs: FileSystem, fd: nat) returns (reply: S.Reply)
    requires fs.Valid() && S.CallOk(View(fs.St()), S.CallClose(fd))
    modifies fs.flash, fs.fds, fs`numFd, fs`writing, fs`es, fs`pname, fs`pdata, fs`wfd
    ensures fs.Valid() && WriteOnce(old(fs.flash[..]), fs.flash[..])
    ensures S.Step(old(View(fs.St())), S.CallClose(fd), fs.wo, fs.flash.Length) == (View(fs.St()), reply)
  {
    hide MediumOk, TableOk, NamesOk, FileMap, WriteOnce, Handles, LogEnd, S.CloseStep, NoMatch;
    ghost var s := fs.St();
    OpenHandle(s, fs.wo, fd);
    assert fs.fds[fd] == s.fds[fd];
    fs.Close(fd);
    CloseRefines(s, fs.St(), fs.wo, fd);
    reply := S.ReplyClose;
  }

  method DoWrite(fs: FileSystem, fd: nat, bytes: seq<Byte>) returns (reply: S.Reply)
    requires fs.Valid() && S.CallOk(View(fs.St()), S.CallWrite(fd, bytes))
    modifies fs.flash, fs.fds, fs`pdata
    ensures fs.Valid() && WriteOnce(old(fs.flash[..]), fs.flash[..])
    ensures S.Step(old(View(fs.St())), S.CallWrite(fd, bytes), fs.wo, fs.flash.Length) == (View(fs.St()), reply)
  {
    hide MediumOk, TableOk, NamesOk, FileMap, WriteOnce, Handles, LogEnd, S.WriteStep, NoMatch;
    ghost var s := fs.St();
    OpenHandle(s, fs.wo, fd);
    assert fs.fds[fd] == s.fds[fd];
    var n := fs.Write(fd, bytes);
    WriteRefines(s, fs.St(), fs.wo, fd, bytes, n);
    reply := S.ReplyWrite(n);
  }

  method DoRead(fs: FileSystem, fd: nat, len: nat) returns (reply: S.Reply)
    requires fs.Valid() && S.CallOk(View(fs.St()), S.CallRead(fd, len))
    modifies fs.fds
    ensures fs.Valid()
    ensures S.Step(old(View(fs.St())), S.CallRead(fd, len), fs.wo, fs.flash.Length) == (View(fs.St()), reply)
  {
    hide MediumOk, TableOk, NamesOk, FileMap, Handles, LogEnd, S.ReadStep, NoMatch, Slice;
    ghost var s := fs.St();
    OpenHandle(s, fs.wo, fd);
    assert fs.fds[fd] == s.fds[fd];
    var n, bytes := fs.Read(fd, len);
    ReadRefines(s, fs.St(), fs.wo, fd, len, n, bytes);
    reply := S.ReplyRead(n, bytes);
  }

  method DoLseek(fs: FileSystem, fd: nat, off: int, whence: Whence) returns (reply: S.Reply)
    requires fs.Valid() && S.CallOk(View(fs.St()), S.CallLseek(fd, off, whence))
    modifies fs.fds
    ensures fs.Valid()
    ensures S.Step(old(View(fs.St())), S.CallLseek(fd, off, whence), fs.wo, fs.flash.Length) == (View(fs.St()), reply)
  {
    hide MediumOk, TableOk, NamesOk, FileMap, Handles, LogEnd, S.LseekStep, NoMatch;
    ghost var s := fs.St();
    OpenHandle(s, fs.wo, fd);
    assert fs.fds[fd] == s.fds[fd];
    var pos := fs.Lseek(fd, off, whence);
    LseekRefines(s, fs.St(), fs.wo, fd, off, whence, pos);
    reply := S.ReplyLseek(pos);
  }

  /** The file system does what the store says, and writes only into blank cells. */
  method Do(fs: FileSystem, call: S.Call) returns (reply: S.Reply)
    requires fs.Valid() && S.CallOk(View(fs.St()), call)
    modifies fs.flash, fs.fds, fs`numFd, fs`writing, fs`es, fs`pname, fs`pdata, fs`wfd
    ensures fs.Valid() && WriteOnce(old(fs.flash[..]), fs.flash[..])
    ensures S.Step(old(View(fs.St())), call, fs.wo, fs.flash.Length) == (View(fs.St()), reply)
  {
    hide MediumOk, TableOk, NamesOk, WriteOnce, View, S.CallOk, S.Step, NoMatch;
    WriteOnceSame(fs.flash[..]);
    match call
    case CallOpen(path, fl) => reply := DoOpen(fs, path, fl);
    case CallClose(fd) => reply := DoClose(fs, fd);
    case CallWrite(fd, bytes) => reply := DoWrite(fs, fd, bytes);
    case CallRead(fd, len) => reply := DoRead(fs, fd, len);
    case CallLseek(fd, off, whence) => reply := DoLseek(fs, fd, off, whence);
  }

  /** Calls that the source's demands allow, one after the other. */
  ghost predicate Allowed(s: S.Store, calls: seq<S.Call>, wo: bool, max: nat)
    decreases |calls|
  {
    calls != [] ==> S.CallOk(s, calls[0]) && Allowed(S.Step(s, calls[0], wo, max).0, calls[1..], wo, max)
  }

  /**
    What holds of the medium in the state s: nothing is programmed from its end on, and there is room for the end
    marker.
   */
  ghost predicate MediumFits(img: seq<Byte>, s: S.Store, wo: bool) {
    wo ==> S.TailAt(s) + ROMFS_ALIGN <= |img| && BlankFrom(img, S.TailAt(s))
  }

  lemma FitsNow(s: State, wo: bool)
    requires StateOk(s, wo)
    ensures MediumFits(s.flash, View(s), wo)
  {
    hide TableOk, NamesOk, FileMap, Handles, Entries;
    OffAligned(s.es, |s.es|);
  }

  lemma HandleOk(s: State, wo: bool, i: nat)
    requires StateOk(s, wo) && i < |s.fds| && Handles(s)[i] != S.Free
    ensures Handles(s)[i].offset <= |S.Contents(View(s), Handles(s)[i])|
    ensures Handles(s)[i].Creator? ==> s.writing && i == s.wfd
  {
    hide StateOk, FileMap, LogEnd, Slice, Handles, S.Contents;
    OpenHandle(s, wo, i);
    ContentsAre(s, wo, i);
  }

  /** What the file system stands for satisfies the store's invariant. */
  lemma StoreIsOk(s: State, wo: bool)
    requires StateOk(s, wo)
    ensures S.StoreOk(View(s), wo, |s.flash|)
  {
    hide StateOk, FileMap, LogEnd, Slice, Handles, S.Contents, BlankFrom, S.TailAt;
    FitsNow(s, wo);
    LogAligned(s.es);
    ParticularsOk(s, wo);
    forall i | 0 <= i < |s.fds| && Handles(s)[i] != S.Free
      ensures Handles(s)[i].offset <= |S.Contents(View(s), Handles(s)[i])| &&
          (Handles(s)[i].Creator? ==> s.writing && i == s.wfd)
    {
      HandleOk(s, wo, i);
    }
  }

  lemma LogAligned(es: seq<Entry>)
    ensures LogEnd(es, true) % 4 == 0
  {
    OffAligned(es, |es|);
  }

  lemma ParticularsOk(s: State, wo: bool)
    requires StateOk(s, wo)
    ensures (wo ==> |s.flash| % 4 == 0) && (s.writing ==> wo && Lower(s.pname) !in FileMap(s.es))
  {
    hide FileMap, TableOk, MediumOk;
    NameNew(s.es, s.pname);
    MediumSize(s.flash, s.es, wo, s.writing, s.pname, s.pdata);
  }

  lemma MediumSize(img: seq<Byte>, es: seq<Entry>, wo: bool, writing: bool, pname: seq<Byte>, pdata: seq<Byte>)
    requires MediumOk(img, es, wo, writing, pname, pdata)
    ensures (wo ==> |img| % 4 == 0) && (writing ==> wo)
  {
  }

  lemma NameNew(es: seq<Entry>, name: seq<Byte>)
    requires NamesOk(es)
    ensures NoMatch(es, name) ==> Lower(name) !in FileMap(es)
  {
    MapFinds(es, name);
  }

  /** Over these images of the medium every byte changes at most once, and only away from 0xFF. */
  ghost predicate ChangesOnce(images: seq<seq<Byte>>, n: nat) {
    && (forall i | 0 <= i < |images| :: |images[i]| == n)
    && forall i, j, k, x | 0 <= i <= j <= k < |images| && 0 <= x < n && images[i][x] != images[j][x] ::
         images[i][x] == END_MARKER && images[k][x] == images[j][x]
  }

  lemma ImagesChangeOnce(images: seq<seq<Byte>>, n: nat)
    requires (forall i | 0 <= i < |images| :: |images[i]| == n) &&
        forall i | 0 < i < |images| :: WriteOnce(images[i - 1], images[i])
    ensures ChangesOnce(images, n)
  {
    hide WriteOnce;
    forall i, j, k, x | 0 <= i <= j <= k < |images| && 0 <= x < n && images[i][x] != images[j][x]
      ensures images[i][x] == END_MARKER && images[k][x] == images[j][x]
    {
      WriteOnceRun(images, i, j, k, x);
    }
  }

  /** In every state the invariant holds, and the medium is blank from its end on, with room for the end marker. */
  ghost predicate StatesOk(states: seq<S.Store>, images: seq<seq<Byte>>, wo: bool, max: nat) {
    |states| == |images| && forall i | 0 <= i < |states| ::
        S.StoreOk(states[i], wo, max) && MediumFits(images[i], states[i], wo)
  }

  lemma AllowedNext(s: S.Store, calls: seq<S.Call>, i: nat, wo: bool, max: nat)
    requires i < |calls| && Allowed(s, calls[i..], wo, max)
    ensures S.CallOk(s, calls[i]) && Allowed(S.Step(s, calls[i], wo, max).0, calls[i + 1..], wo, max)
  {
    hide S.CallOk, S.Step;
    assert calls[i..][0] == calls[i] && calls[i..][1..] == calls[i + 1..];
  }

  lemma RunMore(calls: seq<S.Call>, i: nat, states: seq<S.Store>, replies: seq<S.Reply>, wo: bool, max: nat, t: S.Store,
      reply: S.Reply)
    requires i < |calls| && S.IsRun(calls[..i], states, replies, wo, max) && S.CallOk(states[i], calls[i])
    requires S.Step(states[i], calls[i], wo, max) == (t, reply)
    ensures S.IsRun(calls[..i + 1], states + [t], replies + [reply], wo, max)
  {
    hide S.CallOk, S.Step;
    var ss, rs, cs := states + [t], replies + [reply], calls[..i + 1];
    forall k | 0 <= k < |cs| ensures S.CallOk(ss[k], cs[k]) && S.Step(ss[k], cs[k], wo, max) == (ss[k + 1], rs[k]) {
      if k < i {
        assert cs[k] == calls[..i][k] && ss[k] == states[k] && ss[k + 1] == states[k + 1] && rs[k] == replies[k];
      }
    }
  }

  /**
    Every run of calls, on descriptors in any mix: the replies and the states are those of the store; over the run
    each byte of the medium changes at most once, and only away from 0xFF; in every state the medium is blank from the
    end of the log, or of the file being written, on, and has room for the end marker.
   */
  method Run(fs: FileSystem, calls: seq<S.Call>)
    returns (replies: seq<S.Reply>, ghost states: seq<S.Store>, ghost images: seq<seq<Byte>>)
    requires fs.Valid() && Allowed(View(fs.St()), calls, fs.wo, fs.flash.Length)
    modifies fs.flash, fs.fds, fs`numFd, fs`writing, fs`es, fs`pname, fs`pdata, fs`wfd
    ensures fs.Valid() && S.IsRun(calls, states, replies, fs.wo, fs.flash.Length)
    ensures states[0] == old(View(fs.St())) && states[|calls|] == View(fs.St())
    ensures |images| == |calls| + 1 && images[0] == old(fs.flash[..]) && images[|calls|] == fs.flash[..]
    ensures StatesOk(states, images, fs.wo, fs.flash.Length) && ChangesOnce(images, fs.flash.Length)
  {
    hide MediumOk, TableOk, NamesOk, WriteOnce, View, S.CallOk, S.Step, NoMatch, Allowed, S.StoreOk, MediumFits,
        ChangesOnce;
    var max := fs.flash.Length;
    replies, states, images := [], [View(fs.St())], [fs.flash[..]];
    FitsNow(fs.St(), fs.wo);
    StoreIsOk(fs.St(), fs.wo);
    assert calls[0..] == calls && calls[..0] == [];
    for i := 0 to |calls|
      invariant fs.Valid() && S.IsRun(calls[..i], states, replies, fs.wo, max) && |images| == i + 1
      invariant states[0] == old(View(fs.St())) && states[i] == View(fs.St())
      invariant images[0] == old(fs.flash[..]) && images[i] == fs.flash[..]
      invariant Allowed(states[i], calls[i..], fs.wo, max) && StatesOk(states, images, fs.wo, max)
      invariant (forall k | 0 <= k <= i :: |images[k]| == max) &&
          forall k | 0 < k <= i :: WriteOnce(images[k - 1], images[k])
    {
      AllowedNext(states[i], calls, i, fs.wo, max);
      var reply := Do(fs, calls[i]);
      RunMore(calls, i, states, replies, fs.wo, max, View(fs.St()), reply);
      FitsNow(fs.St(), fs.wo);
      StoreIsOk(fs.St(), fs.wo);
      replies, states, images := replies + [reply], states + [View(fs.St())], images + [fs.flash[..]];
    }
    assert calls[..|calls|] == calls;
    ImagesChangeOnce(images, max);
  }
}
