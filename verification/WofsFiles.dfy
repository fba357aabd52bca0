/** The mounted file system: a medium, a table of open files, and the files it stands for. */
module WofsFiles {
  import opened Octets
  import opened WofsLog
  import opened RomScan
  import opened Wofs

  /** The state of a file system: medium, log, descriptors, and the file being written. */
  datatype State = State(flash: seq<Byte>, es: seq<Entry>, fds: seq<Fd>, numFd: nat,
                         writing: bool, pname: seq<Byte>, pdata: seq<Byte>, wfd: nat)

  /** The entries of es are still there, though perhaps marked deleted. */
  ghost predicate KeepsEntries(es: seq<Entry>, es': seq<Entry>) {
    |es| <= |es'| && forall i | 0 <= i < |es| :: es'[i].name == es[i].name && es'[i].data == es[i].data
  }

  /** Open has given an existing file a descriptor for reading. */
  ghost predicate OpenReads(s: State, t: State, path: seq<Byte>, r: Opening) {
    && r.Opened? && IsFirstEmpty(s.fds, r.fd) && |t.fds| == |s.fds|
    && t == s.(fds := s.fds[r.fd := t.fds[r.fd]], numFd := s.numFd + 1)
    && ReadsContents(t.fds[r.fd], t.flash, FileMap(t.es), path)
  }

  /** Open has created a file, or found no room for it; an older one of that name is gone in both cases. */
  ghost predicate OpenCreates(s: State, t: State, path: seq<Byte>, fl: Flags, r: Opening) {
    && FileMap(t.es) == FileMap(s.es) - {Lower(path)} && LogEnd(t.es, true) == LogEnd(s.es, true)
    && |t.flash| == |s.flash|
    && KeepsEntries(s.es, t.es)
    && (r == Failed(ENOSPC) <==> |s.flash| - LogEnd(s.es, true) < |path| + 15)
    && match r
       case Failed(errno) => errno == ENOSPC && t == s.(flash := t.flash, es := t.es)
       case Opened(fd) =>
         && IsFirstEmpty(s.fds, fd)
         && t == State(t.flash, t.es, s.fds[fd := NewFd(LogEnd(s.es, true), path, fl)], s.numFd + 1, true, path, [], fd)
  }

  /** Reading is allowed unless only writing was asked for; writing and appending, if they were. */
  predicate AccessBits(fd: Fd, fl: Flags) {
    && (fd.read <==> !fl.wronly)
    && (fd.write <==> fl.wronly || fl.rdwr)
    && (fd.append <==> fl.append)
  }

  /** No live entry has that name, in whatever case. */
  ghost predicate NoneNamed(es: seq<Entry>, path: seq<Byte>) { forall k: nat :: !IsNamed(es, k, path) }

  /** files has the name exactly if a live entry has it, in whatever case, and then that entry's data. */
  ghost predicate FilesNamed(es: seq<Entry>, files: map<seq<Byte>, seq<Byte>>, path: seq<Byte>) {
    && (Lower(path) in files <==> exists k: nat :: IsNamed(es, k, path))
    && forall k: nat | IsNamed(es, k, path) :: Lower(path) in files && files[Lower(path)] == es[k].data
  }

  lemma FilesAre(es: seq<Entry>, path: seq<Byte>)
    requires NamesOk(es) && |path| <= 30
    ensures FilesNamed(es, FileMap(es), path)
  {
    hide FileMap, CaseEqual, Matches;
    MapFinds(es, path);
    NamedIs(es, path);
    assert Key(path) == path;
    forall k: nat | IsNamed(es, k, path) ensures k < |es| && Matches(es[k], path) { MatchesNamed(es, k, path); }
  }

  lemma MediumSide(img: seq<Byte>, es: seq<Entry>, wo: bool, writing: bool, pname: seq<Byte>, pdata: seq<Byte>)
    requires MediumOk(img, es, wo, writing, pname, pdata)
    ensures writing ==> wo
  {
  }

  lemma CreatedNamed(s: State, t: State, path: seq<Byte>, fl: Flags, r: Opening)
    requires OpenCreates(s, t, path, fl, r) && r.Opened?
    ensures t.writing && t.pname == path && r.fd < |t.fds| && AccessBits(t.fds[r.fd], fl)
  {
  }

  lemma FoundBits(s: State, t: State, path: seq<Byte>, fl: Flags, r: Opening)
    requires OpenReads(s, t, path, r) && !WantsWrite(fl)
    ensures r.Opened? && r.fd < |t.fds| && AccessBits(t.fds[r.fd], fl)
  {
  }

  lemma BitsAt(fds: seq<Fd>, i: nat, fd: Fd, fl: Flags)
    requires i < |fds| && fds[i] == fd && AccessBits(fds[i], fl)
    ensures AccessBits(fd, fl)
  {
  }

  lemma MatchesNamed(es: seq<Entry>, k: nat, path: seq<Byte>)
    requires IsNamed(es, k, path) && |path| <= 30
    ensures Matches(es[k], path)
  {
    SameNameIs(es[k].name, path);
  }

  lemma NotThereYet(es: seq<Entry>, path: seq<Byte>)
    requires NoMatch(es, path) && |path| <= 30
    ensures NoneNamed(es, path)
  {
    NamedIs(es, path);
  }

  /** What romfs_open_r does: it refuses before the medium is touched, or opens an existing file, or creates one. */
  ghost predicate OpenEffect(s: State, t: State, path: seq<Byte>, fl: Flags, wo: bool, r: Opening) {
    var exists_ := Lower(path) in FileMap(s.es);
    var refusal := Refusal(s.numFd == TOTAL_MAX_FDS, exists_, fl, wo, s.writing);
    if refusal != [] then r == Failed(refusal[0]) && t == s
    else if MustCreate(exists_, fl) then OpenCreates(s, t, path, fl, r)
    else OpenReads(s, t, path, r)
  }

  class FileSystem {
    const flash: array<Byte>
    const wo: bool
    const fds: array<Fd>
    var numFd: nat
    var writing: bool
    ghost var es: seq<Entry>
    ghost var pname: seq<Byte>
    ghost var pdata: seq<Byte>
    /** The descriptor that created the file being written, if it is still open. */
    ghost var wfd: nat

    ghost predicate Valid()
      reads this, flash, fds
    {
      && flash as object != fds as object
      && MediumOk(flash[..], es, wo, writing, pname, pdata)
      && TableOk(fds[..], numFd, wfd, es, wo, pname, pdata)
      && NamesOk(es) && (writing ==> NoMatch(es, pname) && pname != [1])
      && (!writing ==> pname == [] && pdata == [] && wfd == TOTAL_MAX_FDS)
      && wfd <= TOTAL_MAX_FDS
    }

    /** The whole state. */
    ghost function St(): State
      reads this, flash, fds
    {
      State(flash[..], es, fds[..], numFd, writing, pname, pdata, wfd)
    }

    /** The files the system stands for. */
    ghost function Files(): map<seq<Byte>, seq<Byte>>
      reads this
    {
      FileMap(es)
    }

    /** Mounting a medium that holds a log (romfs_init). */
    constructor (flash: array<Byte>, wo: bool, ghost log: seq<Entry>)
      requires MediumOk(flash[..], log, wo, false, [], []) && NamesOk(log)
      ensures Valid() && es == log && !writing && this.flash == flash && this.wo == wo && fresh(fds)
    {
      hide MediumOk, NamesOk;
      this.flash, this.wo, numFd, writing := flash, wo, 0, false;
      fds := new Fd[TOTAL_MAX_FDS](_ => EMPTY_FD);
      es, pname, pdata, wfd := log, [], [], TOTAL_MAX_FDS;
      new;
      assert OpenSet(fds[..]) == {};
    }

    /** writef: only blank cells are ever programmed. */
    method Program(at: nat, bytes: seq<Byte>)
      requires at + |bytes| <= flash.Length && forall x | at <= x < at + |bytes| :: flash[x] == END_MARKER
      modifies flash
      ensures flash[..] == Programmed(old(flash[..]), at, bytes)
    {
      for i := 0 to |bytes|
        invariant forall x | 0 <= x < flash.Length ::
            flash[x] == if at <= x < at + i then bytes[x - at] else old(flash[x])
      {
        flash[at + i] := bytes[i];
      }
    }

    /** romfs_find_empty_fd. */
    method FindEmpty() returns (i: nat)
      requires fds.Length == TOTAL_MAX_FDS && |OpenSet(fds[..])| < TOTAL_MAX_FDS
      ensures IsFirstEmpty(fds[..], i)
    {
      SomeEmpty(fds[..]);
      i := 0;
      while !IsEmpty(fds[i])
        invariant i < TOTAL_MAX_FDS && forall x | 0 <= x < i :: !IsEmpty(fds[x])
        decreases TOTAL_MAX_FDS - i
      {
        i := i + 1;
        if i == TOTAL_MAX_FDS { assert forall x | 0 <= x < |fds[..]| :: !IsEmpty(fds[..][x]); }
      }
    }

    /** A descriptor for reading entry k. */
    method OpenEntry(base: nat, size: nat, fl: Flags, ghost k: nat) returns (i: nat)
      requires Valid() && numFd < TOTAL_MAX_FDS && FileIs(es, wo, k, base, size) && !WantsWrite(fl)
      modifies fds, this`numFd
      ensures Valid() && IsFirstEmpty(old(fds[..]), i) && numFd == old(numFd) + 1
      ensures fds[..] == old(fds[..])[i := Fd(base, 0, size, true, false, false)]
    {
      hide MediumOk, OpenSet, NamesOk, DataAt, Off;
      InMedium(flash[..], es, wo, writing, pname, pdata, k, base, size);
      i := FindEmpty();
      var fd := Fd(base, 0, size, AccessOf(fl).0, AccessOf(fl).1, AccessOf(fl).2);
      OpenSetChange(fds[..], i, fd);
      fds[i] := fd;
      numFd := numFd + 1;
    }

    /** The part of open that marks the old version of a file deleted. */
    method Tombstone(base: nat, ghost k: nat)
      requires Valid() && !writing && wo && k < |es| && !es[k].deleted &&
          base == DataAt(Off(es, true, k), |es[k].name|, true)
      modifies flash, this`es
      ensures Valid() && es == Tombstoned(old(es), k) && WriteOnce(old(flash[..]), flash[..])
      ensures LogEnd(es, true) == old(LogEnd(es, true))
      ensures Files() == old(Files()) - {Lower(old(es)[k].name)} && NoMatch(es, old(es)[k].name)
    {
      hide MediumOk, OpenSet, DataAt, Off, EntryAt, Programmed, FileMap, NoMatch, UniqueLive, WriteOnce, TableOk;
      TombstoneMedium(flash[..], es, k);
      Program(base - ROMFS_SIZE_LEN - WOFS_DEL_FIELD_SIZE, [FILE_DELETED, 0xFF, 0xFF, 0xFF]);
      MapDelete(es, k);
      TableStays(fds[..], numFd, es, Tombstoned(es, k), true);
      es := Tombstoned(es, k);
    }

    /** The part of open that starts a new file at the end of the log, if there is room. */
    method Create(path: seq<Byte>, fl: Flags) returns (r: Opening)
      requires Valid() && !writing && wo && numFd < TOTAL_MAX_FDS && GoodName(path) && path != [1] && NoMatch(es, path)
      modifies flash, fds, this`numFd, this`writing, this`pname, this`pdata, this`wfd
      ensures Valid() && WriteOnce(old(flash[..]), flash[..])
      ensures r == Failed(ENOSPC) <==> flash.Length - LogEnd(es, true) < |path| + 15
      ensures r.Failed? ==>
          && r == Failed(ENOSPC) && !writing
          && flash[..] == old(flash[..]) && fds[..] == old(fds[..]) && numFd == old(numFd)
      ensures r.Opened? ==>
          && writing && pname == path && pdata == [] && wfd == r.fd
          && IsFirstEmpty(old(fds[..]), r.fd) && numFd == old(numFd) + 1
      ensures r.Opened? ==> r.fd < fds.Length && fds[..] == old(fds[..])[r.fd := NewFd(LogEnd(es, true), path, fl)]
    {
      hide OpenSet, DataAt, Off, EntryAt, Programmed, NoMatch, NamesOk, WriteOnce, Entries, LogOk;
      NoInvalidName(es);
      TailIn(flash[..], es, true, false, [], []);
      var found, base, size, firstfree;
      ghost var k, steps;
      found, base, size, firstfree, k, steps := OpenFile(flash, true, [1], es, Closed);
      if flash.Length - firstfree + 1 < |path| + 1 + WOFS_MIN_NEEDED_SIZE + WOFS_DEL_FIELD_SIZE {
        WriteOnceSame(flash[..]);
        r := Failed(ENOSPC);
        return;
      }
      CreateMedium(flash[..], es, path);
      hide MediumOk;
      r := NewFile(path, fl, firstfree);
    }

    method NewFile(path: seq<Byte>, fl: Flags, firstfree: nat) returns (r: Opening)
      requires Valid() && !writing && wo && numFd < TOTAL_MAX_FDS && path != [1] && NoMatch(es, path)
      requires firstfree == LogEnd(es, true) && firstfree + |path| + 1 <= flash.Length &&
          BlankFrom(flash[..], firstfree)
      requires MediumOk(Programmed(flash[..], firstfree, path + [0]), es, true, true, path, []) &&
          DataAt(firstfree, |path|, true) + 4 <= flash.Length
      requires WriteOnce(flash[..], Programmed(flash[..], firstfree, path + [0])) && flash.Length < NONE
      modifies flash, fds, this`numFd, this`writing, this`pname, this`pdata, this`wfd
      ensures Valid() && WriteOnce(old(flash[..]), flash[..])
      ensures r.Opened? && writing && pname == path && pdata == [] && wfd == r.fd && IsFirstEmpty(old(fds[..]), r.fd)
      ensures numFd == old(numFd) + 1
      ensures r.fd < fds.Length && fds[..] == old(fds[..])[r.fd := NewFd(LogEnd(es, true), path, fl)]
    {
      hide MediumOk, OpenSet, DataAt, Off, EntryAt, Programmed, NoMatch, NamesOk, WriteOnce, LogEnd;
      Program(firstfree, path + [0]);
      var at := Align(firstfree + |path| + 1) + ROMFS_SIZE_LEN + WOFS_DEL_FIELD_SIZE;
      DataIs(firstfree, |path|);
      writing, pname, pdata := true, path, [];
      var i := FindEmpty();
      var fd := Fd(at, 0, 0, AccessOf(fl).0, AccessOf(fl).1, AccessOf(fl).2);
      OpenSetChange(fds[..], i, fd);
      NotMine(fds[..], es, wo, path);
      fds[i] := fd;
      numFd := numFd + 1;
      wfd := i;
      r := Opened(i);
    }
  
    /** The file being written is not there yet. */
    lemma PendingUnnamed()
      requires Valid() && writing
      ensures NoneNamed(es, pname)
    {
      hide OpenSet, FileMap, NoneNamed, NamesOk, TableOk, NoMatch;
      NotThereYet(es, pname);
    }

    /** What open may rely on. */
    lemma Facts(path: seq<Byte>)
      requires Valid() && GoodName(path)
      ensures numFd <= TOTAL_MAX_FDS && WriteOnce(flash[..], flash[..]) && FilesNamed(es, Files(), path)
      ensures writing ==> wo
    {
      hide MediumOk, OpenSet, FileMap, WriteOnce, FilesNamed, NamesOk, TableOk;
      WriteOnceSame(flash[..]);
      AtMostEight(fds[..], numFd, wfd, es, wo, pname, pdata);
      FilesAre(es, path);
      MediumSide(flash[..], es, wo, writing, pname, pdata);
    }

    /**
      romfs_open_r.  While a file is being written the look-up must not lead into that file (LookupSafe), and a
      creating open must ask for write access.
     */
    method Open(path: seq<Byte>, fl: Flags) returns (r: Opening)
      requires Valid() && GoodName(path) && path != [1]
      requires writing ==>
          LookupSafe(es, pname, pdata, path) && (Lower(path) !in Files() && fl.creat ==> WantsWrite(fl))
      modifies flash, fds, this`numFd, this`writing, this`es, this`pname, this`pdata, this`wfd
      ensures Valid() && WriteOnce(old(flash[..]), flash[..]) && OpenEffect(old(St()), St(), path, fl, wo, r)
      ensures FilesNamed(old(es), old(Files()), path)
      ensures r.Opened? && writing && !old(writing) ==> NoneNamed(es, path)
      ensures r.Opened? ==> r.fd < fds.Length && AccessBits(fds[r.fd], fl)
    {
      hide Valid, GoodName, WriteOnce, LookupSafe, OpenCreates, OpenReads, FilesNamed, NoneNamed, NoMatch,
          IsFirstMatch, AccessBits;
      Facts(path);
      if numFd == TOTAL_MAX_FDS {
        return Failed(ENFILE);
      }
      var exists_, base, size;
      ghost var k;
      exists_, base, size, k := Lookup(path);
      var refused, mustCreate := Decide(exists_, fl, wo, writing);
      if refused != [] {
        return Failed(refused[0]);
      }
      if mustCreate {
        r := Replace(path, fl, exists_, base, k);
        if r.Opened? {
          CreatedNamed(old(St()), St(), path, fl, r);
          PendingUnnamed();
          BitsAt(fds[..], r.fd, fds[r.fd], fl);
        }
      } else {
        r := OpenFound(path, fl, base, size, k);
        FoundBits(old(St()), St(), path, fl, r);
        BitsAt(fds[..], r.fd, fds[r.fd], fl);
      }
    }

    /** The part of open that gives an existing file a descriptor. */
    method OpenFound(path: seq<Byte>, fl: Flags, base: nat, size: nat, ghost k: nat) returns (r: Opening)
      requires Valid() && numFd < TOTAL_MAX_FDS && FileIs(es, wo, k, base, size) && !WantsWrite(fl) &&
          Lower(path) in Files()
      requires base + size <= flash.Length && flash[base..base + size] == Files()[Lower(path)]
      modifies fds, this`numFd
      ensures Valid() && OpenReads(old(St()), St(), path, r)
    {
      hide MediumOk, OpenSet, DataAt, Off, EntryAt, NoMatch, TableOk, FileMap, LogOk, UniqueLive, LogEnd, NamesOk,
          IsFirstEmpty;
      var i := OpenEntry(base, size, fl, k);
      FirstEmptyAt(old(fds[..]), i);
      assert fds[i] == fds[..][i];
      r := Opened(i);
    }

    /** The search of open, as the file map sees it. */
    method Lookup(path: seq<Byte>) returns (exists_: bool, base: nat, size: nat, ghost k: nat)
      requires Valid() && GoodName(path) && (writing ==> LookupSafe(es, pname, pdata, path))
      ensures exists_ <==> Lower(path) in Files()
      ensures exists_ <==> !NoMatch(es, path)
      ensures exists_ ==> IsFirstMatch(es, path, k) && FileIs(es, wo, k, base, size)
      ensures exists_ ==> base + size <= flash.Length && flash[base..base + size] == Files()[Lower(path)]
    {
      assert Key(path) == path;
      hide MediumOk, OpenSet, DataAt, Off, EntryAt, NoMatch, TableOk, FileMap, LogOk, UniqueLive, GoodName, Key, TailOk;
      MapFinds(es, path);
      TailIn(flash[..], es, wo, writing, pname, pdata);
      var last;
      ghost var steps;
      exists_, base, size, last, k, steps := OpenFile(flash, wo, path, es, TailOf(writing, pname, pdata));
    }

    /** Creating a file, after deleting an older version of it. */
    method Replace(path: seq<Byte>, fl: Flags, exists_: bool, base: nat, ghost k: nat) returns (r: Opening)
      requires Valid() && !writing && wo && numFd < TOTAL_MAX_FDS && GoodName(path) && path != [1]
      requires exists_ <==> !NoMatch(es, path)
      requires exists_ ==> IsFirstMatch(es, path, k) && base == DataAt(Off(es, wo, k), |es[k].name|, wo)
      modifies flash, fds, this`numFd, this`writing, this`es, this`pname, this`pdata, this`wfd
      ensures Valid() && WriteOnce(old(flash[..]), flash[..]) && OpenCreates(old(St()), St(), path, fl, r)
    {
      hide MediumOk, OpenSet, DataAt, Off, EntryAt, TableOk, FileMap, WriteOnce, UniqueLive, GoodName, LogEnd,
          IsFirstEmpty;
      ghost var w := flash[..];
      WriteOnceSame(w);
      MapFinds(es, path);
      AtMostEight(fds[..], numFd, wfd, es, wo, pname, pdata);
      if exists_ {
        ghost var old_ := es[k].name;
        Tombstone(base, k);
        SameNoMatch(es, old_, path);
      }
      hide NoMatch;
      ghost var w1 := flash[..];
      r := Create(path, fl);
      if r.Opened? { FirstEmptyAt(old(fds[..]), r.fd); }
      WriteOnceTrans(w, w1, flash[..]);
    }
  
    /** romfs_close_r.  Closing the writer writes back the size, which makes the file part of the log. */
    method Close(fd: nat)
      requires Valid() && fd < TOTAL_MAX_FDS && !IsEmpty(fds[fd])
      modifies flash, fds, this`numFd, this`writing, this`es, this`pname, this`pdata, this`wfd
      ensures Valid() && WriteOnce(old(flash[..]), flash[..])
      ensures numFd == old(numFd) - 1 && fds[..] == old(fds[..])[fd := EMPTY_FD]
      ensures Writes(old(fds[fd])) ==>
          !writing && old(writing) && fd == old(wfd) && es == old(es) + [Entry(old(pname), old(pdata), false)]
      ensures Writes(old(fds[fd])) ==>
          Files() == old(Files())[Lower(old(pname)) := old(pdata)] && Lower(old(pname)) !in old(Files())
      ensures !Writes(old(fds[fd])) ==>
        && writing == old(writing) && es == old(es) && pname == old(pname) && pdata == old(pdata)
        && flash[..] == old(flash[..])
        && wfd == if fd == old(wfd) then TOTAL_MAX_FDS else old(wfd)
    {
      hide MediumOk, OpenSet, DataAt, Off, EntryAt, NoMatch, FileMap, LogOk, WriteOnce, UniqueLive, Programmed, IsFile;
      ghost var w := flash[..];
      WriteOnceSame(w);
      assert FdOk(fds[fd], fd == wfd, es, wo, pname, pdata);
      OpenSetChange(fds[..], fd, EMPTY_FD);
      OneOpen(fds[..], fd);
      if Writes(fds[fd]) {
        var size := fds[fd].size;
        WriterOnWo(w, es, wo, pname, pdata);
        CloseMedium(w, es, pname, pdata);
        PendingBlank(w, es, pname, pdata);
        Program(fds[fd].base - ROMFS_SIZE_LEN, Le32(size));
        MapAppend(es, Entry(pname, pdata, false));
        TableClosed(fds[..], wfd, es, wo, pname, pdata);
        es := es + [Entry(pname, pdata, false)];
        writing, pname, pdata, wfd := false, [], [], TOTAL_MAX_FDS;
      } else if fd == wfd {
        wfd := TOTAL_MAX_FDS;
      }
      fds[fd] := EMPTY_FD;
      numFd := numFd - 1;
    }
  
    /** romfs_write_r: -1 without write access, 0 away from the end, else the bytes there is room for. */
    method Write(fd: nat, bytes: seq<Byte>) returns (n: int)
      requires Valid() && fd < TOTAL_MAX_FDS && !IsEmpty(fds[fd]) && |bytes| < 0x8000_0000
      modifies flash, fds, this`pdata
      ensures Valid() && WriteOnce(old(flash[..]), flash[..])
      ensures !Writes(old(fds[fd])) ==> n == -1
      ensures Writes(old(fds[fd])) && !old(fds[fd].append) && old(fds[fd].offset) != old(fds[fd].size) ==> n == 0
      ensures !Writes(old(fds[fd])) || (!old(fds[fd].append) && old(fds[fd].offset) != old(fds[fd].size)) ==>
        flash[..] == old(flash[..]) && fds[..] == old(fds[..]) && pdata == old(pdata)
      ensures Writes(old(fds[fd])) && (old(fds[fd].append) || old(fds[fd].offset) == old(fds[fd].size)) ==>
        && 0 <= n <= |bytes| && n == Accepted(|bytes|, flash.Length, old(fds[fd])) && fd == wfd
        && n == (var end := old(fds[fd].base + fds[fd].size);
                 if end + |bytes| + 4 <= flash.Length then |bytes| else flash.Length - 4 - end)
        && pdata == old(pdata) + bytes[..n]
        && fds[..] == old(fds[..])[fd := old(fds[fd]).(offset := |pdata|, size := |pdata|)]
      ensures !IsEmpty(fds[fd])
    {
      hide MediumOk, OpenSet, DataAt, Off, EntryAt, NoMatch, FileMap, LogOk, WriteOnce, UniqueLive, Programmed, IsFile;
      ghost var w := flash[..];
      WriteOnceSame(w);
      assert FdOk(fds[fd], fd == wfd, es, wo, pname, pdata);
      if !fds[fd].write && !fds[fd].append {
        return -1;
      }
      WriterOnWo(w, es, wo, pname, pdata);
      PendingBlank(w, es, pname, pdata);
      var f := fds[fd];
      if f.append {
        f := f.(offset := f.size);
      }
      if f.offset != f.size {
        return 0;
      }
      var len := |bytes|;
      if f.base + f.size + len > flash.Length - ROMFS_ALIGN {
        len := flash.Length - (f.base + f.size) - ROMFS_ALIGN;
      }
      WriteMedium(w, es, pname, pdata, bytes[..len]);
      Program(f.offset + f.base, bytes[..len]);
      ghost var g := f.(offset := f.offset + len, size := f.size + len);
      OpenSetChange(fds[..], fd, g);
      TableWritten(fds[..], fd, g, es, wo, pname, pdata, bytes[..len]);
      fds[fd] := f.(offset := f.offset + len, size := f.size + len);
      pdata := pdata + bytes[..len];
      n := len;
    }

    /** romfs_read_r: the bytes from the offset on, as far as the file goes. */
    method Read(fd: nat, len: nat) returns (n: int, bytes: seq<Byte>)
      requires Valid() && fd < TOTAL_MAX_FDS && !IsEmpty(fds[fd])
      modifies fds
      ensures Valid()
      ensures !old(fds[fd].read) ==> n == -1 && bytes == [] && fds[..] == old(fds[..])
      ensures old(fds[fd].read) ==>
        var f := old(fds[fd]);
        && f.base + f.size <= flash.Length && f.offset <= f.size
        && n == (if len <= f.size - f.offset then len else f.size - f.offset)
        && bytes == Slice(flash[..], f.base + f.offset, n)
        && fds[..] == old(fds[..])[fd := f.(offset := f.offset + n)]
    {
      hide MediumOk, OpenSet, DataAt, Off, EntryAt, NoMatch, FileMap, LogOk, UniqueLive, IsFile;
      var f := fds[fd];
      FdInMedium(flash[..], f, fd == wfd, es, wo, writing, pname, pdata);
      var actlen := if len < f.size - f.offset then len else f.size - f.offset;
      if !f.read {
        return -1, [];
      }
      bytes := flash[f.offset + f.base..f.offset + f.base + actlen];
      OpenSetChange(fds[..], fd, f.(offset := f.offset + actlen));
      fds[fd] := f.(offset := f.offset + actlen);
      n := actlen;
    }

    /** romfs_lseek_r, with the position computed on 32 bits. */
    method Lseek(fd: nat, off: int, whence: Whence) returns (pos: int)
      requires Valid() && fd < TOTAL_MAX_FDS && !IsEmpty(fds[fd]) && -0x8000_0000 <= off < 0x8000_0000
      modifies fds
      ensures Valid()
      ensures var f := old(fds[fd]);
              var target := off + match whence case SeekSet => 0 case SeekCur => f.offset case SeekEnd => f.size;
              if 0 <= target <= f.size then pos == target && fds[..] == old(fds[..])[fd := f.(offset := target)]
              else pos == -1 && fds[..] == old(fds[..])
    {
      hide Valid;
      OpenFd(fd);
      var f := fds[fd];
      var start := match whence case SeekSet => 0 case SeekCur => f.offset case SeekEnd => f.size;
      var newpos := (start + off) % 0x1_0000_0000;
      if newpos > f.size {
        return -1;
      }
      MoveTo(fd, newpos);
      pos := newpos;
    }

    lemma OpenFd(fd: nat)
      requires Valid() && fd < TOTAL_MAX_FDS
      ensures fds.Length == TOTAL_MAX_FDS
      ensures !IsEmpty(fds[fd]) ==> fds[fd].offset <= fds[fd].size < 0x8000_0000
    {
      hide MediumOk, TableOk, DataAt, Off, EntryAt, NoMatch, FileMap, LogOk, UniqueLive, IsFile, NamesOk;
      TableLength(fds[..], numFd, wfd, es, wo, pname, pdata);
      TableAt(fds[..], fd, numFd, wfd, es, wo, pname, pdata);
      if !IsEmpty(fds[fd]) { FdInMedium(flash[..], fds[fd], fd == wfd, es, wo, writing, pname, pdata); }
    }

    /** The offset of an open descriptor moves to pos. */
    method MoveTo(fd: nat, pos: nat)
      requires Valid() && fd < TOTAL_MAX_FDS == fds.Length && !IsEmpty(fds[fd]) && pos <= fds[fd].size < 0x8000_0000
      modifies fds
      ensures Valid() && fds[..] == old(fds[..])[fd := old(fds[fd]).(offset := pos)]
    {
      hide MediumOk, TableOk, DataAt, Off, EntryAt, NoMatch, FileMap, LogOk, UniqueLive, IsFile, NamesOk;
      TableMoved(fds[..], fd, pos, numFd, wfd, es, wo, pname, pdata);
      ghost var table := fds[..];
      fds[fd] := fds[fd].(offset := pos);
      assert fds[..] == table[fd := table[fd].(offset := pos)];
    }

    /** Reading in chunks of any sizes gives the contents from the offset on, as far as the chunks reach. */
    method ReadChunks(fd: nat, lens: seq<nat>) returns (all: seq<Byte>)
      requires Valid() && fd < TOTAL_MAX_FDS && !IsEmpty(fds[fd]) && fds[fd].read
      modifies fds
      ensures Valid() && fd < fds.Length
      ensures var f := old(fds[fd]);
              && f.base + f.size <= flash.Length && f.offset <= f.size
              && all == Slice(flash[..], f.base + f.offset, Clip(Total(lens), f.size - f.offset))
              && fds[..] == old(fds[..])[fd := f.(offset := f.offset + |all|)]
    {
      hide MediumOk, OpenSet, DataAt, Off, EntryAt, NoMatch, FileMap, LogOk, UniqueLive, IsFile, TableOk, Slice,
          NamesOk;
      assert fds.Length == TOTAL_MAX_FDS by { TableLength(fds[..], numFd, wfd, es, wo, pname, pdata); }
      ghost var f, img, t0 := fds[fd], flash[..], fds[..];
      TableAt(fds[..], fd, numFd, wfd, es, wo, pname, pdata);
      FdInMedium(img, f, fd == wfd, es, wo, writing, pname, pdata);
      all := [];
      SliceEmpty(img, f.base + f.offset);
      assert fds[..] == t0[fd := f.(offset := f.offset + 0)];
      for i := 0 to |lens|
        invariant Valid() && |all| == Clip(Total(lens[..i]), f.size - f.offset)
        invariant all == Slice(img, f.base + f.offset, |all|) && flash[..] == img
        invariant fds[..] == t0[fd := f.(offset := f.offset + |all|)]
      {
        TotalStep(lens, i);
        hide Total;
        assert fds[fd] == fds[..][fd];
        var n, bytes := Read(fd, lens[i]);
        SliceJoin(img, f.base + f.offset, |all|, n);
        all := all + bytes;
      }
      assert lens[..|lens|] == lens;
    }
  
    /** Writing all chunks to the file being written: they are stored up to where the medium is full. */
    method WriteChunks(fd: nat, chunks: seq<seq<Byte>>)
      requires Valid() && fd == wfd < TOTAL_MAX_FDS && Writes(fds[fd]) && pdata == [] && fds[fd].offset == fds[fd].size
      requires forall i | 0 <= i < |chunks| :: |chunks[i]| < 0x8000_0000
      modifies flash, fds, this`pdata
      ensures Valid() && WriteOnce(old(flash[..]), flash[..]) && Writes(fds[fd]) && !IsEmpty(fds[fd])
      ensures pdata == Prefix(Concat(chunks), flash.Length - ROMFS_ALIGN - old(fds[fd].base))
      ensures forall i | 0 <= i < TOTAL_MAX_FDS && i != fd :: fds[i] == old(fds[i])
    {
      hide MediumOk, OpenSet, DataAt, Off, EntryAt, NoMatch, FileMap, LogOk, UniqueLive, IsFile, WriteOnce, NamesOk,
          Concat;
      TableAt(fds[..], fd, numFd, wfd, es, wo, pname, pdata);
      FdInMedium(flash[..], fds[fd], true, es, wo, writing, pname, pdata);
      WriterRoom(flash[..], es, wo, pname, pdata);
      WriteOnceSame(flash[..]);
      ConcatEmpty(chunks);
      ghost var room := flash.Length - ROMFS_ALIGN - fds[fd].base;
      for i := 0 to |chunks|
        invariant Valid() && Writes(fds[fd]) && !IsEmpty(fds[fd]) && fd == wfd && WriteOnce(old(flash[..]), flash[..])
        invariant fds[fd].offset == fds[fd].size == |pdata| && fds[fd].base == old(fds[fd].base)
        invariant pdata == Prefix(Concat(chunks[..i]), room)
        invariant forall j | 0 <= j < TOTAL_MAX_FDS && j != fd :: fds[j] == old(fds[j])
      {
        ghost var w := flash[..];
        ConcatStep(chunks, i, room);
        var n := Write(fd, chunks[i]);
        assert fds[fd] == fds[..][fd];
        WriteOnceTrans(old(flash[..]), w, flash[..]);
      }
      assert chunks[..|chunks|] == chunks;
    }

    /** A whole writing session: open for writing, write, close. */
    method Store(path: seq<Byte>, chunks: seq<seq<Byte>>) returns (ok: bool)
      requires Valid() && !writing && wo && numFd < TOTAL_MAX_FDS && GoodName(path) && path != [1]
      requires forall i | 0 <= i < |chunks| :: |chunks[i]| < 0x8000_0000
      modifies flash, fds, this`numFd, this`writing, this`es, this`pname, this`pdata, this`wfd
      ensures Valid() && !writing && numFd == old(numFd) && WriteOnce(old(flash[..]), flash[..])
      ensures !ok ==> Files() == old(Files()) - {Lower(path)}
      ensures ok ==> exists room: nat ::
        && Files() == old(Files())[Lower(path) := Prefix(Concat(chunks), room)]
        && (room < |Concat(chunks)| ==> LogEnd(es, true) + ROMFS_ALIGN == flash.Length)
    {
      hide MediumOk, OpenSet, DataAt, Off, EntryAt, NoMatch, FileMap, LogOk, UniqueLive, IsFile, WriteOnce, NamesOk,
          Concat, TableOk, LogEnd;
      ghost var w, files := flash[..], Files();
      AtMostEight(fds[..], numFd, wfd, es, wo, pname, pdata);
      var r := Open(path, Flags(true, false, true, true, false, false));
      ok := r.Opened?;
      if ok {
        var fd := r.fd;
        ghost var w1 := flash[..];
        TableAt(fds[..], fd, numFd, wfd, es, wo, pname, pdata);
        ghost var base := fds[fd].base;
        WriterRoom(flash[..], es, wo, pname, pdata);
        WriteChunks(fd, chunks);
        ghost var w2, es2 := flash[..], es;
        WriterRoom(w2, es2, wo, pname, pdata);
        FullMedium(es2, path, pdata, flash.Length);
        Close(fd);
        WriteOnceTrans(w, w1, w2);
        WriteOnceTrans(w, w2, flash[..]);
      }
    }
  
    /** A whole reading session: open, read in chunks of any sizes, close. */
    method Load(path: seq<Byte>, lens: seq<nat>) returns (found: bool, all: seq<Byte>)
      requires Valid() && !writing && numFd < TOTAL_MAX_FDS && GoodName(path) && path != [1]
      modifies flash, fds, this`numFd, this`writing, this`es, this`pname, this`pdata, this`wfd
      ensures Valid() && !writing && numFd == old(numFd) && Files() == old(Files())
      ensures found <==> Lower(path) in Files()
      ensures found ==> all == Prefix(Files()[Lower(path)], Total(lens))
    {
      hide MediumOk, OpenSet, DataAt, Off, EntryAt, NoMatch, FileMap, LogOk, UniqueLive, IsFile, WriteOnce, NamesOk,
          TableOk, LogEnd, Slice, Total;
      AtMostEight(fds[..], numFd, wfd, es, wo, pname, pdata);
      all := [];
      var r := Open(path, Flags(false, false, false, false, false, false));
      found := r.Opened?;
      if found {
        var fd := r.fd;
        ghost var f, img := fds[fd], flash[..];
        TableAt(fds[..], fd, numFd, wfd, es, wo, pname, pdata);
        FdInMedium(img, f, fd == wfd, es, wo, writing, pname, pdata);
        assert !IsEmpty(f);
        all := ReadChunks(fd, lens);
        SliceWithin(img, f.base, f.size, 0, Clip(Total(lens), f.size));
        assert fds[fd] == fds[..][fd];
        Close(fd);
      }
    }
  
    /** Reading the directory to its end: each file once, with its size. */
    method List() returns (all: seq<(seq<Byte>, nat)>)
      requires Valid() && !writing
      ensures Lists(all, Files())
    {
      hide MediumOk, TableOk, TailOk, FileMap, Listing, UniqueLive;
      TailIn(flash[..], es, wo, false, [], []);
      all := ListAll(flash, wo, es);
      ListingIsMap(es);
    }

    /**
      Creating a file and closing it at once clears the WRITING flag exactly when write access was asked for:
      a file created read-only leaves the system marked as being written.
     */
    method CreateAndClose(path: seq<Byte>, fl: Flags) returns (created: bool)
      requires Valid() && !writing && wo && numFd < TOTAL_MAX_FDS && GoodName(path) && path != [1]
      requires Creates(numFd, Files(), path, fl, wo, false)
      modifies flash, fds, this`numFd, this`writing, this`es, this`pname, this`pdata, this`wfd
      ensures Valid() && numFd == old(numFd)
      ensures created ==> writing == !WantsWrite(fl)
    {
      hide MediumOk, OpenSet, DataAt, Off, EntryAt, NoMatch, FileMap, LogOk, UniqueLive, IsFile, WriteOnce, NamesOk,
          TableOk, LogEnd;
      AtMostEight(fds[..], numFd, wfd, es, wo, pname, pdata);
      var r := Open(path, fl);
      created := r.Opened?;
      if created {
        TableAt(fds[..], r.fd, numFd, wfd, es, wo, pname, pdata);
        Close(r.fd);
      }
    }
  }

  /** The descriptor of a file just created at the end of the log. */
  function NewFd(end: nat, path: seq<Byte>, fl: Flags): Fd {
    Fd(DataAt(end, |path|, true), 0, 0, AccessOf(fl).0, AccessOf(fl).1, AccessOf(fl).2)
  }

  ghost predicate IsFirstEmpty(fds: seq<Fd>, i: nat) {
    i < |fds| && i < TOTAL_MAX_FDS && IsEmpty(fds[i]) && forall x | 0 <= x < i :: !IsEmpty(fds[x])
  }

  lemma FirstEmptyAt(fds: seq<Fd>, i: nat)
    requires IsFirstEmpty(fds, i)
    ensures i < |fds| && i < TOTAL_MAX_FDS && IsEmpty(fds[i])
  {
  }

  /** What follows the log, as the walkers see it. */
  ghost function TailOf(writing: bool, pname: seq<Byte>, pdata: seq<Byte>): Tail {
    if writing then Pending(pname, pdata) else Closed
  }

  /**
    A look-up while pname is being written gives what the file map says: the name is not that of the file being written,
    and it is in the map, or the data written so far is empty or starts with 0xFF.
   */
  ghost predicate LookupSafe(es: seq<Entry>, pname: seq<Byte>, pdata: seq<Byte>, path: seq<Byte>) {
    !SameName(pname, path) && (!NoMatch(es, path) || pdata == [] || pdata[0] == END_MARKER)
  }

  lemma TailIn(img: seq<Byte>, es: seq<Entry>, wo: bool, writing: bool, pname: seq<Byte>, pdata: seq<Byte>)
    requires MediumOk(img, es, wo, writing, pname, pdata)
    ensures TailOk(img, es, wo, TailOf(writing, pname, pdata))
  {
    hide EntryAt, PendingAt;
  }

  /** The first n elements, or all there are. */
  function Prefix(s: seq<Byte>, n: int): seq<Byte> { if n >= |s| then s else if n < 0 then [] else s[..n] }

  function Concat(chunks: seq<seq<Byte>>): seq<Byte> {
    if chunks == [] then [] else Concat(chunks[..|chunks| - 1]) + chunks[|chunks| - 1]
  }

  lemma ConcatEmpty(chunks: seq<seq<Byte>>)
    ensures Concat(chunks[..0]) == []
  {
  }

  lemma ConcatStep(chunks: seq<seq<Byte>>, i: nat, room: int)
    requires i < |chunks| && room >= 0
    ensures Concat(chunks[..i + 1]) == Concat(chunks[..i]) + chunks[i]
    ensures Prefix(Concat(chunks[..i + 1]), room) ==
              Prefix(Concat(chunks[..i]), room) + Prefix(chunks[i], room - |Prefix(Concat(chunks[..i]), room)|)
  {
    assert chunks[..i + 1][..i] == chunks[..i];
  }

  /** A file that was cut short ends four bytes before the end of the medium. */
  lemma FullMedium(es: seq<Entry>, name: seq<Byte>, data: seq<Byte>, max: nat)
    requires max % 4 == 0
    ensures DataAt(LogEnd(es, true), |name|, true) + |data| == max - 4 ==>
        LogEnd(es + [Entry(name, data, false)], true) == max - 4
  {
    hide DataAt, LogEnd;
    OffAppend(es, Entry(name, data, false));
  }

  lemma WriterRoom(img: seq<Byte>, es: seq<Entry>, wo: bool, pname: seq<Byte>, pdata: seq<Byte>)
    requires MediumOk(img, es, wo, true, pname, pdata)
    ensures wo && |img| % 4 == 0 && DataAt(LogEnd(es, true), |pname|, true) + |pdata| + 4 <= |img|
  {
  }

  lemma TableLength(fds: seq<Fd>, numFd: nat, wfd: nat, es: seq<Entry>, wo: bool, pname: seq<Byte>, pdata: seq<Byte>)
    requires TableOk(fds, numFd, wfd, es, wo, pname, pdata)
    ensures |fds| == TOTAL_MAX_FDS
  {
  }

  lemma TableAt(fds: seq<Fd>, i: nat, numFd: nat, wfd: nat, es: seq<Entry>, wo: bool, pname: seq<Byte>,
      pdata: seq<Byte>)
    requires TableOk(fds, numFd, wfd, es, wo, pname, pdata) && i < |fds|
    ensures FdOk(fds[i], i == wfd, es, wo, pname, pdata)
  {
  }

  /** An open slot's offset may move to any place in its file. */
  lemma TableMoved(fds: seq<Fd>, fd: nat, pos: nat, numFd: nat, wfd: nat, es: seq<Entry>, wo: bool, pname: seq<Byte>,
      pdata: seq<Byte>)
    requires TableOk(fds, numFd, wfd, es, wo, pname, pdata) && fd < |fds| && pos <= fds[fd].size
    requires !IsEmpty(fds[fd]) && !IsEmpty(fds[fd].(offset := pos))
    ensures TableOk(fds[fd := fds[fd].(offset := pos)], numFd, wfd, es, wo, pname, pdata)
  {
    hide IsFile;
    var fds' := fds[fd := fds[fd].(offset := pos)];
    OpenSetChange(fds, fd, fds[fd].(offset := pos));
    forall i | 0 <= i < |fds'| ensures FdOk(fds'[i], i == wfd, es, wo, pname, pdata) {
      assert FdOk(fds[i], i == wfd, es, wo, pname, pdata);
    }
  }

  /** n bytes of img from a on. */
  ghost function Slice(img: seq<Byte>, a: nat, n: nat): (s: seq<Byte>)
    ensures a + n <= |img| ==> |s| == n
  {
    if a + n <= |img| then img[a..a + n] else []
  }

  lemma SliceEmpty(img: seq<Byte>, a: nat)
    requires a <= |img|
    ensures Slice(img, a, 0) == []
  {
  }

  lemma SliceJoin(img: seq<Byte>, a: nat, m: nat, n: nat)
    requires a + m + n <= |img|
    ensures Slice(img, a, m) + Slice(img, a + m, n) == Slice(img, a, m + n)
  {
  }

  lemma SliceWithin(img: seq<Byte>, base: nat, size: nat, off: nat, n: nat)
    requires base + size <= |img| && off + n <= size
    ensures Slice(img, base + off, n) == img[base..base + size][off..off + n]
  {
    var a, b := img[base..base + size][off..off + n], img[base + off..base + off + n];
    assert |a| == |b|;
    forall i | 0 <= i < n ensures a[i] == b[i] {
      assert a[i] == img[base..base + size][off + i] && b[i] == img[base + off + i];
    }
    assert a == b;
  }

  function Total(lens: seq<nat>): nat {
    if lens == [] then 0 else Total(lens[..|lens| - 1]) + lens[|lens| - 1]
  }

  lemma TotalStep(lens: seq<nat>, i: nat)
    requires i < |lens|
    ensures Total(lens[..i + 1]) == Total(lens[..i]) + lens[i]
  {
    assert lens[..i + 1][..i] == lens[..i];
  }

  function Clip(n: nat, max: int): nat { if n <= max then n else if max < 0 then 0 else max }

  function SeekTarget(f: Fd, off: int, whence: Whence): int {
    match whence
    case SeekSet => off
    case SeekCur => f.offset + off
    case SeekEnd => f.size + off
  }

  /** How many of len bytes a write takes: four bytes of the medium stay blank. */
  function Accepted(len: nat, max: nat, f: Fd): int {
    if f.base + f.size + len + ROMFS_ALIGN <= max then len else max - ROMFS_ALIGN - (f.base + f.size)
  }

  lemma TableWritten(fds: seq<Fd>, fd: nat, g: Fd, es: seq<Entry>, wo: bool, pname: seq<Byte>, pdata: seq<Byte>,
      bytes: seq<Byte>)
    requires fd < |fds| && (forall i | 0 <= i < |fds| :: FdOk(fds[i], i == fd, es, wo, pname, pdata))
    requires !IsEmpty(g) && g.offset == g.size == |pdata| + |bytes| && g.base == fds[fd].base
    ensures var fds' := fds[fd := g]; forall i | 0 <= i < |fds'| :: FdOk(fds'[i], i == fd, es, wo, pname, pdata + bytes)
  {
    hide IsFile, DataAt;
    var fds' := fds[fd := g];
    forall i | 0 <= i < |fds'| ensures FdOk(fds'[i], i == fd, es, wo, pname, pdata + bytes) {
      assert FdOk(fds[i], i == fd, es, wo, pname, pdata);
    }
  }

  lemma FdInMedium(img: seq<Byte>, f: Fd, mine: bool, es: seq<Entry>, wo: bool, writing: bool, pname: seq<Byte>,
      pdata: seq<Byte>)
    requires MediumOk(img, es, wo, writing, pname, pdata) && FdOk(f, mine, es, wo, pname, pdata) && !IsEmpty(f) &&
        (mine ==> writing)
    ensures f.base + f.size <= |img| <= 0x7FFF_FFF0 && f.offset <= f.size
  {
    hide Off, DataAt, EntryAt;
    if !mine {
      var k: nat :| FileIs(es, wo, k, f.base, f.size);
      FileContents(img, es, wo, k, f.base, f.size);
    }
  }

  lemma WriterOnWo(img: seq<Byte>, es: seq<Entry>, wo: bool, pname: seq<Byte>, pdata: seq<Byte>)
    requires MediumOk(img, es, wo, true, pname, pdata)
    ensures wo
  {
  }

  lemma OneOpen(fds: seq<Fd>, fd: nat)
    requires fd < |fds| && !IsEmpty(fds[fd])
    ensures |OpenSet(fds)| >= 1
  {
    assert fd in OpenSet(fds);
  }

  lemma PendingBlank(img: seq<Byte>, es: seq<Entry>, pname: seq<Byte>, pdata: seq<Byte>)
    requires MediumOk(img, es, true, true, pname, pdata)
    ensures var d := DataAt(LogEnd(es, true), |pname|, true);
            d + |pdata| + 4 <= |img| && (forall x | d - 4 <= x < d :: img[x] == END_MARKER) &&
                BlankFrom(img, d + |pdata|)
  {
  }

  /** Once the writer is gone, the other descriptors are good for the longer log. */
  lemma TableClosed(fds: seq<Fd>, wfd: nat, es: seq<Entry>, wo: bool, pname: seq<Byte>, pdata: seq<Byte>)
    requires forall i | 0 <= i < |fds| :: FdOk(fds[i], i == wfd, es, wo, pname, pdata)
    ensures forall i | 0 <= i < |fds| && i != wfd :: FdOk(fds[i], false, es + [Entry(pname, pdata, false)], wo, [], [])
  {
    hide IsFile;
    forall i | 0 <= i < |fds| && i != wfd ensures FdOk(fds[i], false, es + [Entry(pname, pdata, false)], wo, [], []) {
      assert FdOk(fds[i], false, es, wo, pname, pdata);
      if !IsEmpty(fds[i]) { FileStays(es, es + [Entry(pname, pdata, false)], wo, fds[i].base, fds[i].size); }
    }
  }

  /** A directory listing: no name twice, not even in other case, and exactly the names and sizes of the files. */
  ghost predicate Lists(all: seq<(seq<Byte>, nat)>, files: map<seq<Byte>, seq<Byte>>) {
    && (forall i, j | 0 <= i < j < |all| :: !SameName(all[i].0, all[j].0))
    && (forall i | 0 <= i < |all| :: Lower(all[i].0) in files && |files[Lower(all[i].0)]| == all[i].1)
    && |all| == |files|
  }

  lemma ListingCons(es: seq<Entry>)
    requires es != []
    ensures Listing(es) == (if es[0].deleted then [] else [(es[0].name, |es[0].data|)]) + Listing(es[1..])
  {
  }

  lemma {:induction false} ListingAppend(es: seq<Entry>, e: Entry)
    ensures Listing(es + [e]) == Listing(es) + if e.deleted then [] else [(e.name, |e.data|)]
  {
    if es == [] {
      assert es + [e] == [e] && [e][1..] == [];
    } else {
      var all := es + [e];
      assert all[1..] == es[1..] + [e] && all[0] == es[0];
      ListingAppend(es[1..], e);
      ListingCons(all);
      ListingCons(es);
      hide Listing;
    }
  }

  /** The live entries are the files, one for each name. */
  lemma {:induction false} ListingIsMap(es: seq<Entry>)
    requires UniqueLive(es)
    ensures Lists(Listing(es), FileMap(es))
    decreases |es|
  {
    if es != [] {
      var front, e := es[..|es| - 1], es[|es| - 1];
      assert es == front + [e];
      ListingIsMap(front);
      ListingAppend(front, e);
      if !e.deleted {
        assert NoMatch(front, e.name);
        MapAppend(front, e);
      }
    }
  }

  /** Open goes on to create the file. */
  ghost predicate Creates(numFd: nat, files: map<seq<Byte>, seq<Byte>>, path: seq<Byte>, fl: Flags, wo: bool,
      writing: bool) {
    Refusal(numFd == TOTAL_MAX_FDS, Lower(path) in files, fl, wo, writing) == [] && MustCreate(Lower(path) in files, fl)
  }

  /** The descriptor stands at the start of the file's contents. */
  ghost predicate ReadsContents(fd: Fd, img: seq<Byte>, files: map<seq<Byte>, seq<Byte>>, path: seq<Byte>) {
    && fd.read && !Writes(fd) && fd.offset == 0 && fd.base + fd.size <= |img|
    && Lower(path) in files && img[fd.base..fd.base + fd.size] == files[Lower(path)]
  }

  lemma AtMostEight(fds: seq<Fd>, numFd: nat, wfd: nat, es: seq<Entry>, wo: bool, pname: seq<Byte>, pdata: seq<Byte>)
    requires TableOk(fds, numFd, wfd, es, wo, pname, pdata)
    ensures numFd <= TOTAL_MAX_FDS == |fds|
  {
    SomeEmpty(fds);
  }

  /** The checks of open on the flags, once it is known whether the file exists. */
  method Decide(exists_: bool, fl: Flags, wo: bool, writing: bool) returns (refused: seq<Errno>, mustCreate: bool)
    ensures refused == Refusal(false, exists_, fl, wo, writing)
    ensures mustCreate == (refused == [] && MustCreate(exists_, fl))
  {
    mustCreate := false;
    if fl.creat {
      if fl.excl && exists_ {
        return [EEXIST], false;
      }
      mustCreate := !exists_;
    }
    if fl.trunc && (fl.wronly || fl.rdwr) && exists_ {
      mustCreate := true;
    }
    if mustCreate && !wo {
      return [EROFS], false;
    }
    var read, write, append := true, false, false;
    if fl.wronly {
      read, write := false, true;
    } else if fl.rdwr {
      write := true;
    }
    if fl.append {
      append := true;
    }
    if (write || append) && !mustCreate {
      return [EACCES], false;
    }
    if (write || append) && writing {
      return [EROFS], false;
    }
    if !mustCreate && !exists_ {
      return [ENOENT], false;
    }
    refused := [];
  }

  lemma SameNoMatch(es: seq<Entry>, a: seq<Byte>, b: seq<Byte>)
    requires NoMatch(es, a) && SameName(a, b)
    ensures NoMatch(es, b)
  {
  }

  lemma WriteOnceTrans(a: seq<Byte>, b: seq<Byte>, c: seq<Byte>)
    requires WriteOnce(a, b) && WriteOnce(b, c)
    ensures WriteOnce(a, c)
  {
  }

  lemma DataIs(i: nat, n: nat)
    ensures DataAt(i, n, true) == Align(i + n + 1) + 8
  {
  }

  lemma WriteOnceSame(img: seq<Byte>)
    ensures WriteOnce(img, img)
  {
  }

  lemma InMedium(img: seq<Byte>, es: seq<Entry>, wo: bool, writing: bool, pname: seq<Byte>, pdata: seq<Byte>,
                 k: nat, base: nat, size: nat)
    requires MediumOk(img, es, wo, writing, pname, pdata) && FileIs(es, wo, k, base, size)
    ensures base + size <= |img| < NONE && IsFile(es, wo, base, size)
  {
    hide Off;
    FileContents(img, es, wo, k, base, size);
  }

  /** Descriptors that are not the writer's do not depend on the file being written. */
  lemma NotMine(fds: seq<Fd>, es: seq<Entry>, wo: bool, path: seq<Byte>)
    requires forall i | 0 <= i < |fds| :: FdOk(fds[i], false, es, wo, [], [])
    ensures forall i | 0 <= i < |fds| :: FdOk(fds[i], false, es, wo, path, [])
  {
    hide IsFile;
    forall i | 0 <= i < |fds| ensures FdOk(fds[i], false, es, wo, path, []) {
      assert FdOk(fds[i], false, es, wo, [], []);
    }
  }
}
