/**
  What the file system stands for, without a medium: files by name, at most one file being written, and handles.  Every
  call is a function of this state; theorems about whole runs are theorems about these functions.
 */
module WofsStore {
  import opened Octets
  import opened WofsLog
  import opened Wofs

  /**
    A handle for reading keeps the contents the file had when it was opened; the handle that created a file shares it.
   */
  datatype Handle = Free | Reader(contents: seq<Byte>, offset: nat)
    | Creator(read: bool, write: bool, append: bool, offset: nat)

  datatype Pending = Nothing | Writing(name: seq<Byte>, data: seq<Byte>)

  /** end is where the log ends: it decides only how much room is left. */
  datatype Store = Store(files: map<seq<Byte>, seq<Byte>>, end: nat, pending: Pending, handles: seq<Handle>)

  datatype Call =
    | CallOpen(path: seq<Byte>, fl: Flags)
    | CallClose(fd: nat)
    | CallWrite(fd: nat, bytes: seq<Byte>)
    | CallRead(fd: nat, len: nat)
    | CallLseek(fd: nat, off: int, whence: Whence)

  datatype Reply = ReplyOpen(r: Opening) | ReplyClose | ReplyWrite(n: int) | ReplyRead(n: int, bytes: seq<Byte>)
    | ReplyLseek(pos: int)

  ghost predicate IsFull(s: Store) { forall i | 0 <= i < |s.handles| :: s.handles[i] != Free }

  /** The first free handle from i on. */
  function FirstFree(hs: seq<Handle>, i: nat): (k: nat)
    requires i <= |hs|
    ensures i <= k <= |hs| && (k < |hs| ==> hs[k] == Free) && forall x | i <= x < k :: hs[x] != Free
    decreases |hs| - i
  {
    if i == |hs| || hs[i] == Free then i else FirstFree(hs, i + 1)
  }

  ghost function WithHandle(s: Store, fd: nat, h: Handle): Store
    requires fd < |s.handles|
  {
    s.(handles := s.handles[fd := h])
  }

  /**
    A new file: an older one of that name is gone in any case; ENOSPC when fewer than 15 bytes and the name's length
    are left.
   */
  ghost function Created(s: Store, path: seq<Byte>, fl: Flags, max: nat): (Store, Opening) {
    var t := s.(files := s.files - {Lower(path)});
    var fd := FirstFree(s.handles, 0);
    if max - s.end < |path| + 15 then (t, Failed(ENOSPC))
    else if fd == |s.handles| then (t, Failed(ENFILE))
    else
      var (read, write, append) := AccessOf(fl);
      (WithHandle(t, fd, Creator(read, write, append, 0)).(pending := Writing(path, [])), Opened(fd))
  }

  ghost function OpenStep(s: Store, path: seq<Byte>, fl: Flags, wo: bool, max: nat): (Store, Opening) {
    var exists_ := Lower(path) in s.files;
    var refusal := Refusal(IsFull(s), exists_, fl, wo, s.pending.Writing?);
    var fd := FirstFree(s.handles, 0);
    if refusal != [] then (s, Failed(refusal[0]))
    else if MustCreate(exists_, fl) then Created(s, path, fl, max)
    else if !exists_ || fd == |s.handles| then (s, Failed(ENOENT))
    else (WithHandle(s, fd, Reader(s.files[Lower(path)], 0)), Opened(fd))
  }

  predicate HandleWrites(h: Handle) { h.Creator? && (h.write || h.append) }

  /** Closing the handle of the writer puts its file in place. */
  ghost function CloseStep(s: Store, fd: nat): Store
    requires fd < |s.handles|
  {
    var t := WithHandle(s, fd, Free);
    if HandleWrites(s.handles[fd]) && s.pending.Writing? then
      t.(files := s.files[Lower(s.pending.name) := s.pending.data], pending := Nothing,
         end := NextAt(s.end, |s.pending.name|, |s.pending.data|, true))
    else t
  }

  /** How many of len bytes a write takes: four bytes of the medium stay blank. */
  ghost function Taken(s: Store, len: nat, max: nat): int
    requires s.pending.Writing?
  {
    var at := DataAt(s.end, |s.pending.name|, true) + |s.pending.data|;
    if at + len + ROMFS_ALIGN <= max then len else max - ROMFS_ALIGN - at
  }

  /** Where a write to this handle would go: only the end of the file takes bytes. */
  ghost predicate AtEnd(s: Store, h: Handle)
    requires s.pending.Writing?
  {
    h.Creator? && (h.append || h.offset == |s.pending.data|)
  }

  ghost function WriteStep(s: Store, fd: nat, bytes: seq<Byte>, max: nat): (Store, int)
    requires fd < |s.handles|
  {
    var h := s.handles[fd];
    if !HandleWrites(h) || s.pending.Nothing? then (s, -1)
    else if !AtEnd(s, h) then (s, 0)
    else
      var n := Taken(s, |bytes|, max);
      if !(0 <= n <= |bytes|) then (s, n)
      else
        var data := s.pending.data + bytes[..n];
        (WithHandle(s, fd, h.(offset := |data|)).(pending := Writing(s.pending.name, data)), n)
  }

  /** What a handle gives access to. */
  ghost function Contents(s: Store, h: Handle): seq<Byte> {
    match h
    case Free => []
    case Reader(contents, _) => contents
    case Creator(_, _, _, _) => if s.pending.Writing? then s.pending.data else []
  }

  predicate CanRead(h: Handle) { h.Reader? || (h.Creator? && h.read) }

  ghost function ReadStep(s: Store, fd: nat, len: nat): (Store, int, seq<Byte>)
    requires fd < |s.handles|
  {
    var h := s.handles[fd];
    if !CanRead(h) then (s, -1, [])
    else
      var all := Contents(s, h);
      if h.offset > |all| then (s, 0, [])
      else
        var n := if len <= |all| - h.offset then len else |all| - h.offset;
        (WithHandle(s, fd, h.(offset := h.offset + n)), n, all[h.offset..h.offset + n])
  }

  function Target(offset: nat, size: nat, off: int, whence: Whence): int {
    match whence
    case SeekSet => off
    case SeekCur => offset + off
    case SeekEnd => size + off
  }

  ghost function LseekStep(s: Store, fd: nat, off: int, whence: Whence): (Store, int)
    requires fd < |s.handles| && s.handles[fd] != Free
  {
    var h := s.handles[fd];
    var size := |Contents(s, h)|;
    var target := Target(h.offset, size, off, whence);
    if 0 <= target <= size then (WithHandle(s, fd, h.(offset := target)), target) else (s, -1)
  }

  /**
    What the source demands of a call; descriptors come from earlier opens, and look-ups keep out of a file being
    written.
   */
  ghost predicate CallOk(s: Store, call: Call) {
    match call
    case CallOpen(path, fl) =>
      && GoodName(path) && path != [1]
      && (s.pending.Writing? ==>
            && !SameName(s.pending.name, path)
            && (Lower(path) in s.files || s.pending.data == [] || s.pending.data[0] == END_MARKER)
            && (Lower(path) !in s.files && fl.creat ==> WantsWrite(fl)))
    case CallClose(fd) => IsOpen(s, fd)
    case CallWrite(fd, bytes) => IsOpen(s, fd) && |bytes| < 0x8000_0000
    case CallRead(fd, _) => IsOpen(s, fd)
    case CallLseek(fd, off, _) => IsOpen(s, fd) && -0x8000_0000 <= off < 0x8000_0000
  }

  ghost predicate IsOpen(s: Store, fd: nat) { fd < |s.handles| && s.handles[fd] != Free }

  ghost function Step(s: Store, call: Call, wo: bool, max: nat): (Store, Reply)
    requires CallOk(s, call)
  {
    match call
    case CallOpen(path, fl) => var (t, r) := OpenStep(s, path, fl, wo, max); (t, ReplyOpen(r))
    case CallClose(fd) => (CloseStep(s, fd), ReplyClose)
    case CallWrite(fd, bytes) => var (t, n) := WriteStep(s, fd, bytes, max); (t, ReplyWrite(n))
    case CallRead(fd, len) => var (t, n, bytes) := ReadStep(s, fd, len); (t, ReplyRead(n, bytes))
    case CallLseek(fd, off, whence) => var (t, pos) := LseekStep(s, fd, off, whence); (t, ReplyLseek(pos))
  }

  /** states and replies are those of the calls, made one after the other from states[0]. */
  ghost predicate IsRun(calls: seq<Call>, states: seq<Store>, replies: seq<Reply>, wo: bool, max: nat) {
    && |replies| == |calls| && |states| == |calls| + 1
    && forall i | 0 <= i < |calls| ::
        CallOk(states[i], calls[i]) && Step(states[i], calls[i], wo, max) == (states[i + 1], replies[i])
  }

  /** A file just created can be read unless only writing was asked for, and written if writing or appending was. */
  lemma CreatedAccess(s: Store, path: seq<Byte>, fl: Flags, max: nat)
    ensures var (t, r) := Created(s, path, fl, max);
            r.Opened? ==>
              && IsOpen(t, r.fd) && t.pending == Writing(path, [])
              && (CanRead(t.handles[r.fd]) <==> !fl.wronly)
              && (HandleWrites(t.handles[r.fd]) <==> fl.wronly || fl.rdwr || fl.append)
  {
  }

  /* ---- What every call keeps ---- */

  /** Where the next byte of data, or the next name, would go. */
  ghost function TailAt(s: Store): nat {
    if s.pending.Nothing? then s.end else DataAt(s.end, |s.pending.name|, true) + |s.pending.data|
  }

  /**
    Offsets lie within their files, only one handle at a time creates a file, the file being written is not there yet,
    and there is always room for the end marker.
   */
  ghost predicate StoreOk(s: Store, wo: bool, max: nat) {
    && (forall i | 0 <= i < |s.handles| && s.handles[i] != Free :: s.handles[i].offset <= |Contents(s, s.handles[i])|)
    && (forall i | 0 <= i < |s.handles| && s.handles[i].Creator? :: s.pending.Writing?)
    && (forall i, j | 0 <= i < j < |s.handles| :: !(s.handles[i].Creator? && s.handles[j].Creator?))
    && (s.pending.Writing? ==> wo && Lower(s.pending.name) !in s.files)
    && (wo ==> s.end % 4 == 0 && max % 4 == 0 && TailAt(s) + ROMFS_ALIGN <= max)
  }

  lemma OpenKeepsOk(s: Store, path: seq<Byte>, fl: Flags, wo: bool, max: nat)
    requires StoreOk(s, wo, max) && CallOk(s, CallOpen(path, fl))
    ensures StoreOk(OpenStep(s, path, fl, wo, max).0, wo, max)
  {
    hide DataAt;
    var t := OpenStep(s, path, fl, wo, max).0;
    if t.pending != s.pending { RoomForName(s.end, |path|, max); }
  }

  /** The space check of open leaves room for the name, the fields and the end marker. */
  lemma RoomForName(end: nat, n: nat, max: nat)
    requires end % 4 == 0 && max % 4 == 0 && max - end >= n + 15
    ensures DataAt(end, n, true) + ROMFS_ALIGN <= max
  {
  }

  lemma CloseKeepsOk(s: Store, fd: nat, wo: bool, max: nat)
    requires StoreOk(s, wo, max) && IsOpen(s, fd)
    ensures StoreOk(CloseStep(s, fd), wo, max)
  {
    var t := CloseStep(s, fd);
    if t.pending != s.pending { RoomAfterData(s.end, |s.pending.name|, |s.pending.data|, max); }
    hide DataAt, NextAt;
  }

  lemma RoomAfterData(end: nat, n: nat, len: nat, max: nat)
    requires max % 4 == 0 && DataAt(end, n, true) + len + ROMFS_ALIGN <= max
    ensures NextAt(end, n, len, true) % 4 == 0 && NextAt(end, n, len, true) + ROMFS_ALIGN <= max
  {
  }

  /** A write never computes a negative length, and takes no more than it was given. */
  lemma WriteKeepsOk(s: Store, fd: nat, bytes: seq<Byte>, wo: bool, max: nat)
    requires StoreOk(s, wo, max) && IsOpen(s, fd)
    ensures s.pending.Writing? ==> 0 <= Taken(s, |bytes|, max) <= |bytes|
    ensures StoreOk(WriteStep(s, fd, bytes, max).0, wo, max)
  {
    hide DataAt;
  }

  lemma MoveKeepsOk(s: Store, fd: nat, h: Handle, wo: bool, max: nat)
    requires StoreOk(s, wo, max) && IsOpen(s, fd) && h != Free && s.handles[fd].(offset := h.offset) == h
    requires h.offset <= |Contents(s, h)|
    ensures StoreOk(WithHandle(s, fd, h), wo, max)
  {
    hide DataAt;
  }

  /** Every call keeps the invariant. */
  lemma StepKeepsOk(s: Store, call: Call, wo: bool, max: nat)
    requires StoreOk(s, wo, max) && CallOk(s, call)
    ensures StoreOk(Step(s, call, wo, max).0, wo, max)
  {
    hide StoreOk, OpenStep, CloseStep, WriteStep;
    match call
    case CallOpen(path, fl) => OpenKeepsOk(s, path, fl, wo, max);
    case CallClose(fd) => CloseKeepsOk(s, fd, wo, max);
    case CallWrite(fd, bytes) => WriteKeepsOk(s, fd, bytes, wo, max);
    case CallRead(fd, len) =>
      var t := ReadStep(s, fd, len).0;
      if t != s { MoveKeepsOk(s, fd, t.handles[fd], wo, max); }
    case CallLseek(fd, off, whence) =>
      var t := LseekStep(s, fd, off, whence).0;
      if t != s { MoveKeepsOk(s, fd, t.handles[fd], wo, max); }
  }

  lemma {:induction false} RunKeepsOk(calls: seq<Call>, states: seq<Store>, replies: seq<Reply>, wo: bool, max: nat,
      i: nat, j: nat)
    requires IsRun(calls, states, replies, wo, max) && i <= j <= |calls| && StoreOk(states[i], wo, max)
    ensures StoreOk(states[j], wo, max)
    decreases j
  {
    hide StoreOk, Step, CallOk;
    if i < j {
      RunKeepsOk(calls, states, replies, wo, max, i, j - 1);
      StepKeepsOk(states[j - 1], calls[j - 1], wo, max);
      assert Step(states[j - 1], calls[j - 1], wo, max) == (states[j], replies[j - 1]);
    }
  }

  /* ---- Theorems about runs ---- */

  /** The handle a call is about, if any. */
  function HandleOf(call: Call): int {
    match call
    case CallOpen(_, _) => -1
    case CallClose(fd) => fd
    case CallWrite(fd, _) => fd
    case CallRead(fd, _) => fd
    case CallLseek(fd, _, _) => fd
  }

  /** A call about another handle leaves an open one as it is. */
  lemma OthersStay(s: Store, call: Call, wo: bool, max: nat, fd: nat)
    requires CallOk(s, call) && IsOpen(s, fd) && HandleOf(call) != fd
    ensures var t := Step(s, call, wo, max).0;
        IsOpen(t, fd) && t.handles[fd] == s.handles[fd] && |t.handles| == |s.handles|
  {
  }

  /** Reading and seeking move the offset of a reader and nothing else of it. */
  lemma ReaderMoves(s: Store, call: Call, wo: bool, max: nat, fd: nat)
    requires CallOk(s, call) && IsOpen(s, fd) && s.handles[fd].Reader? && call != CallClose(fd)
    ensures var t := Step(s, call, wo, max).0;
        IsOpen(t, fd) && t.handles[fd].Reader? && t.handles[fd].contents == s.handles[fd].contents
  {
    if HandleOf(call) != fd { OthersStay(s, call, wo, max, fd); }
  }

  /**
    A reader keeps the contents its file had at its open, through any calls but its own close: files created, written,
    closed and deleted meanwhile, even one of the same name, change nothing for it.
   */
  lemma {:induction false} ReaderKeeps(calls: seq<Call>, states: seq<Store>, replies: seq<Reply>, wo: bool, max: nat,
      fd: nat, i: nat, j: nat)
    requires IsRun(calls, states, replies, wo, max) && i <= j <= |calls|
    requires IsOpen(states[i], fd) && states[i].handles[fd].Reader? && CallClose(fd) !in calls[i..j]
    ensures IsOpen(states[j], fd) && states[j].handles[fd].Reader? &&
        states[j].handles[fd].contents == states[i].handles[fd].contents
    decreases j - i
  {
    hide CallOk, Step;
    if i < j {
      assert calls[i..j][0] == calls[i] && calls[i + 1..j] == calls[i..j][1..];
      ReaderMoves(states[i], calls[i], wo, max, fd);
      ReaderKeeps(calls, states, replies, wo, max, fd, i + 1, j);
    }
  }

  /** So every read of it returns bytes of those contents, from its offset on. */
  lemma ReaderReads(calls: seq<Call>, states: seq<Store>, replies: seq<Reply>, wo: bool, max: nat, fd: nat, i: nat,
      j: nat)
    requires IsRun(calls, states, replies, wo, max) && i <= j < |calls|
    requires IsOpen(states[i], fd) && states[i].handles[fd].Reader? && CallClose(fd) !in calls[i..j]
    requires calls[j].CallRead? && calls[j].fd == fd
    requires StoreOk(states[i], wo, max)
    ensures var all, off := states[i].handles[fd].contents, states[j].handles[fd].offset;
            && replies[j].ReplyRead? && 0 <= replies[j].n == |replies[j].bytes| <= calls[j].len
            && off + replies[j].n <= |all|
            && replies[j].bytes == all[off..off + replies[j].n]
            && (replies[j].n == calls[j].len || off + replies[j].n == |all|)
  {
    ReaderKeeps(calls, states, replies, wo, max, fd, i, j);
    RunKeepsOk(calls, states, replies, wo, max, i, j);
    assert Step(states[j], calls[j], wo, max) == (states[j + 1], replies[j]);
  }

  /** The bytes read from a handle in a run, put together. */
  ghost function BytesRead(calls: seq<Call>, replies: seq<Reply>, fd: nat): seq<Byte>
    requires |replies| == |calls|
    decreases |calls|
  {
    if calls == [] then []
    else
      var n := |calls| - 1;
      BytesRead(calls[..n], replies[..n], fd) + ReadBy(calls[n], replies[n], fd)
  }

  ghost function ReadBy(call: Call, reply: Reply, fd: nat): seq<Byte> {
    if call.CallRead? && call.fd == fd && reply.ReplyRead? then reply.bytes else []
  }

  /** The reader has moved on from h to h', over these bytes of its contents. */
  ghost predicate HasRead(h: Handle, h': Handle, bytes: seq<Byte>) {
    && h.Reader? && h'.Reader? && h'.contents == h.contents && h.offset <= h'.offset <= |h.contents|
    && bytes == h.contents[h.offset..h'.offset]
  }

  lemma HasReadMore(a: Handle, b: Handle, c: Handle, x: seq<Byte>, y: seq<Byte>)
    requires HasRead(a, b, x) && HasRead(b, c, y)
    ensures HasRead(a, c, x + y)
  {
    assert a.contents[a.offset..c.offset] == x + y;
  }

  lemma BytesReadMore(calls: seq<Call>, replies: seq<Reply>, fd: nat, n: nat)
    requires |calls| == |replies| == n + 1
    ensures BytesRead(calls, replies, fd) == BytesRead(calls[..n], replies[..n], fd) + ReadBy(calls[n], replies[n], fd)
  {
  }

  /** Reads in any chunks, among any calls about other handles, give the contents in one piece. */
  lemma {:induction false} ReadsJoin(calls: seq<Call>, states: seq<Store>, replies: seq<Reply>, wo: bool, max: nat,
      fd: nat)
    requires IsRun(calls, states, replies, wo, max)
    requires IsOpen(states[0], fd) && states[0].handles[fd].Reader? &&
        states[0].handles[fd].offset <= |states[0].handles[fd].contents|
    requires forall k | 0 <= k < |calls| && HandleOf(calls[k]) == fd :: calls[k].CallRead?
    ensures IsOpen(states[|calls|], fd) && HasRead(states[0].handles[fd], states[|calls|].handles[fd],
        BytesRead(calls, replies, fd))
    decreases |calls|
  {
    hide Step, CallOk, ReadBy;
    if calls != [] {
      var n := |calls| - 1;
      RunPrefix(calls, states, replies, wo, max, n);
      ReadsJoin(calls[..n], states[..n + 1], replies[..n], wo, max, fd);
      hide IsRun;
      ReadOne(calls, states, replies, wo, max, fd, n);
      hide BytesRead;
      HasReadMore(states[0].handles[fd], states[n].handles[fd], states[n + 1].handles[fd],
                  BytesRead(calls[..n], replies[..n], fd), ReadBy(calls[n], replies[n], fd));
      BytesReadMore(calls, replies, fd, n);
    }
  }

  lemma RunPrefix(calls: seq<Call>, states: seq<Store>, replies: seq<Reply>, wo: bool, max: nat, n: nat)
    requires IsRun(calls, states, replies, wo, max) && n <= |calls|
    ensures IsRun(calls[..n], states[..n + 1], replies[..n], wo, max)
  {
    hide Step, CallOk;
  }

  lemma ReadOne(calls: seq<Call>, states: seq<Store>, replies: seq<Reply>, wo: bool, max: nat, fd: nat, n: nat)
    requires IsRun(calls, states, replies, wo, max) && n < |calls|
    requires IsOpen(states[n], fd) && states[n].handles[fd].Reader? &&
        states[n].handles[fd].offset <= |states[n].handles[fd].contents|
    requires HandleOf(calls[n]) == fd ==> calls[n].CallRead?
    ensures IsOpen(states[n + 1], fd) && HasRead(states[n].handles[fd], states[n + 1].handles[fd],
        ReadBy(calls[n], replies[n], fd))
  {
    assert Step(states[n], calls[n], wo, max) == (states[n + 1], replies[n]);
    if HandleOf(calls[n]) != fd { OthersStay(states[n], calls[n], wo, max, fd); }
  }

  /* ---- Writers, and the files they leave ---- */

  /** The bytes that writes to a handle took in a run, put together. */
  ghost function BytesTaken(calls: seq<Call>, replies: seq<Reply>, fd: nat): seq<Byte>
    requires |replies| == |calls|
    decreases |calls|
  {
    if calls == [] then []
    else
      var n := |calls| - 1;
      BytesTaken(calls[..n], replies[..n], fd) + TakenBy(calls[n], replies[n], fd)
  }

  ghost function TakenBy(call: Call, reply: Reply, fd: nat): seq<Byte> {
    if call.CallWrite? && call.fd == fd && reply.ReplyWrite? && 0 <= reply.n <= |call.bytes| then call.bytes[..reply.n]
        else []
  }

  /** While a file is being written, only writes to its handle change it, and only its close ends that. */
  lemma WriterOne(s: Store, call: Call, wo: bool, max: nat, fd: nat)
    requires StoreOk(s, wo, max) && CallOk(s, call) && IsOpen(s, fd) && HandleWrites(s.handles[fd]) &&
        call != CallClose(fd)
    ensures var (t, reply) := Step(s, call, wo, max);
            && IsOpen(t, fd) && HandleWrites(t.handles[fd]) && t.files == s.files
            && s.pending.Writing? && t.pending == Writing(s.pending.name, s.pending.data + TakenBy(call, reply, fd))
  {
    hide DataAt;
    if HandleOf(call) != fd { OthersStay(s, call, wo, max, fd); }
    assert s.pending.Writing?;
    assert s.pending.data + [] == s.pending.data;
    if call.CallWrite? {
      WriteKeepsOk(s, call.fd, call.bytes, wo, max);
    }
  }

  /** What is being written is what the writes took, in order, whatever is called between them. */
  lemma {:induction false} WritesJoin(calls: seq<Call>, states: seq<Store>, replies: seq<Reply>, wo: bool, max: nat,
      fd: nat)
    requires IsRun(calls, states, replies, wo, max) && StoreOk(states[0], wo, max)
    requires IsOpen(states[0], fd) && HandleWrites(states[0].handles[fd]) && CallClose(fd) !in calls
    ensures var n, p := |calls|, states[0].pending;
            && IsOpen(states[n], fd) && HandleWrites(states[n].handles[fd]) && states[n].files == states[0].files
            && p.Writing? && states[n].pending == Writing(p.name, p.data + BytesTaken(calls, replies, fd))
    decreases |calls|
  {
    hide StoreOk, Step, CallOk, TakenBy;
    if calls == [] {
      CreatorWrites(states[0], wo, max, fd);
      assert states[0].pending.data + [] == states[0].pending.data;
    } else {
      var n := |calls| - 1;
      RunPrefix(calls, states, replies, wo, max, n);
      assert forall k | 0 <= k < n :: calls[..n][k] == calls[k];
      WritesJoin(calls[..n], states[..n + 1], replies[..n], wo, max, fd);
      RunKeepsOk(calls, states, replies, wo, max, 0, n);
      assert Step(states[n], calls[n], wo, max) == (states[n + 1], replies[n]);
      WriterOne(states[n], calls[n], wo, max, fd);
      var d, a, b := states[0].pending.data, BytesTaken(calls[..n], replies[..n], fd),
          TakenBy(calls[n], replies[n], fd);
      assert d + a + b == d + (a + b);
    }
  }

  lemma CreatorWrites(s: Store, wo: bool, max: nat, fd: nat)
    requires StoreOk(s, wo, max) && IsOpen(s, fd) && HandleWrites(s.handles[fd])
    ensures s.pending.Writing?
  {
  }

  /**
    A whole session: a handle for writing, any calls, and its close.  The file is then there under its name, whatever
    the case, and holds exactly the bytes taken; no other file has changed.
   */
  lemma SessionStores(calls: seq<Call>, states: seq<Store>, replies: seq<Reply>, wo: bool, max: nat, fd: nat,
      path: seq<Byte>)
    requires IsRun(calls, states, replies, wo, max) && StoreOk(states[0], wo, max) && calls != []
    requires IsOpen(states[0], fd) && HandleWrites(states[0].handles[fd]) && states[0].pending == Writing(path, [])
    requires calls[|calls| - 1] == CallClose(fd) && CallClose(fd) !in calls[..|calls| - 1]
    ensures var n := |calls| - 1;
            && states[n + 1].files == states[0].files[Lower(path) := BytesTaken(calls[..n], replies[..n], fd)]
            && states[n + 1].pending == Nothing
  {
    hide StoreOk, CallOk, BytesTaken;
    var n := |calls| - 1;
    RunPrefix(calls, states, replies, wo, max, n);
    WritesJoin(calls[..n], states[..n + 1], replies[..n], wo, max, fd);
    assert Step(states[n], calls[n], wo, max) == (states[n + 1], replies[n]);
    assert [] + BytesTaken(calls[..n], replies[..n], fd) == BytesTaken(calls[..n], replies[..n], fd);
  }

  /** The call creates, or tries to create, a file of this name. */
  ghost predicate Replaces(s: Store, call: Call, wo: bool, key: seq<Byte>) {
    && call.CallOpen? && Lower(call.path) == key && MustCreate(Lower(call.path) in s.files, call.fl)
    && Refusal(IsFull(s), Lower(call.path) in s.files, call.fl, wo, s.pending.Writing?) == []
  }

  lemma FileStaysOne(s: Store, call: Call, wo: bool, max: nat, key: seq<Byte>)
    requires StoreOk(s, wo, max) && CallOk(s, call) && key in s.files && !Replaces(s, call, wo, key)
    ensures var t := Step(s, call, wo, max).0; key in t.files && t.files[key] == s.files[key]
  {
    hide DataAt, NextAt;
  }

  /** A file stays as it is until a new one of its name is created: a look-up finds the latest version. */
  lemma {:induction false} FileStays(calls: seq<Call>, states: seq<Store>, replies: seq<Reply>, wo: bool, max: nat,
      key: seq<Byte>, i: nat, j: nat)
    requires IsRun(calls, states, replies, wo, max) && i <= j <= |calls| && StoreOk(states[i], wo, max) &&
        key in states[i].files
    requires forall k | i <= k < j :: !Replaces(states[k], calls[k], wo, key)
    ensures key in states[j].files && states[j].files[key] == states[i].files[key]
    decreases j
  {
    hide StoreOk, Step, CallOk, Replaces;
    if i < j {
      FileStays(calls, states, replies, wo, max, key, i, j - 1);
      RunKeepsOk(calls, states, replies, wo, max, i, j - 1);
      FileStaysOne(states[j - 1], calls[j - 1], wo, max, key);
      assert Step(states[j - 1], calls[j - 1], wo, max) == (states[j], replies[j - 1]);
    }
  }
}
