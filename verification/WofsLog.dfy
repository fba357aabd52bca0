/**
  The on-medium format shared by the read-only and the write-once file systems: a log of
  entries closed by the byte 0xFF, and what the log means.
 */
module WofsLog {
  import opened Octets

  const ROMFS_ALIGN: nat := 4
  const MAX_FNAME_LENGTH: nat := 30
  const END_MARKER: Byte := 0xFF
  const FILE_DELETED: Byte := 0xAA

  datatype Entry = Entry(name: seq<Byte>, data: seq<Byte>, deleted: bool)

  function Align(x: nat): (r: nat)
    ensures r % 4 == 0 && x <= r < x + 4 && (x % 4 == 0 ==> r == x)
  {
    (x + ROMFS_ALIGN - 1) / ROMFS_ALIGN * ROMFS_ALIGN
  }

  /* ---- Layout ---- */

  /**
    Where the data of a file whose name starts at i begins; a write-once entry has a deletion field before the size.
   */
  function DataAt(i: nat, nameLen: nat, wo: bool): (d: nat)
    ensures d % 4 == 0 && i + nameLen + 5 <= d <= i + nameLen + 12 && (wo ==> i + nameLen + 9 <= d)
  {
    Align(i + nameLen + 1) + (if wo then 8 else 4)
  }

  /** Where the next name starts; on a write-once system names are aligned. */
  function NextAt(i: nat, nameLen: nat, dataLen: nat, wo: bool): (n: nat)
    ensures i + nameLen + 5 + dataLen <= n && DataAt(i, nameLen, wo) + dataLen <= n && (wo ==> n % 4 == 0)
  {
    if wo then Align(DataAt(i, nameLen, wo) + dataLen) else DataAt(i, nameLen, wo) + dataLen
  }

  predicate GoodName(name: seq<Byte>) {
    |name| <= MAX_FNAME_LENGTH && (forall i | 0 <= i < |name| :: name[i] != 0) && (name != [] ==> name[0] != END_MARKER)
  }

  ghost predicate EntryOk(e: Entry) {
    GoodName(e.name) && |e.data| < 0xFFFF_FFFF
  }

  ghost predicate DelField(img: seq<Byte>, d: nat, deleted: bool)
    requires 8 <= d <= |img|
  {
    && img[d - 8] == (if deleted then FILE_DELETED else END_MARKER)
    && img[d - 7] == END_MARKER && img[d - 6] == END_MARKER && img[d - 5] == END_MARKER
  }

  /** Entry e is stored at i.  Padding bytes may hold anything. */
  ghost predicate EntryAt(img: seq<Byte>, i: nat, e: Entry, wo: bool) {
    var n, d := |e.name|, DataAt(i, |e.name|, wo);
    && EntryOk(e) && d + |e.data| <= |img|
    && img[i..i + n] == e.name && img[i + n] == 0
    && (if wo then DelField(img, d, e.deleted) else !e.deleted)
    && img[d - 4..d] == Le32(|e.data|)
    && img[d..d + |e.data|] == e.data
  }

  /** A file "ab" of three bytes on a write-once medium, live and deleted, and the place of the next. */
  lemma EntryBytes()
    ensures EntryAt([97, 98, 0, 0xFF] + [0xFF, 0xFF, 0xFF, 0xFF] + [3, 0, 0, 0] + [7, 8, 9], 0,
                    Entry([97, 98], [7, 8, 9], false), true)
    ensures EntryAt([97, 98, 0, 0xFF] + [0xAA, 0xFF, 0xFF, 0xFF] + [3, 0, 0, 0] + [7, 8, 9], 0,
                    Entry([97, 98], [7, 8, 9], true), true)
    ensures NextAt(0, 2, 3, true) == 16
  {
    assert DataAt(0, 2, true) == 12;
    var a := [97, 98, 0, 0xFF] + [0xFF, 0xFF, 0xFF, 0xFF] + [3, 0, 0, 0] + [7, 8, 9];
    var b := [97, 98, 0, 0xFF] + [0xAA, 0xFF, 0xFF, 0xFF] + [3, 0, 0, 0] + [7, 8, 9];
    assert a[0..2] == [97, 98] && a[8..12] == [3, 0, 0, 0] && a[12..15] == [7, 8, 9];
    assert b[0..2] == [97, 98] && b[8..12] == [3, 0, 0, 0] && b[12..15] == [7, 8, 9];
  }

  /** Where entry k of the log starts. */
  ghost function Off(es: seq<Entry>, wo: bool, k: nat): (i: nat)
    requires k <= |es|
    decreases k
  {
    if k == 0 then 0 else NextAt(Off(es, wo, k - 1), |es[k - 1].name|, |es[k - 1].data|, wo)
  }

  ghost predicate Entries(img: seq<Byte>, es: seq<Entry>, wo: bool) {
    forall k | 0 <= k < |es| :: EntryAt(img, Off(es, wo, k), es[k], wo)
  }

  ghost function LogEnd(es: seq<Entry>, wo: bool): nat { Off(es, wo, |es|) }

  /** The medium holds the entries es, then the end marker. */
  ghost predicate LogOk(img: seq<Byte>, es: seq<Entry>, wo: bool) {
    Entries(img, es, wo) && LogEnd(es, wo) < |img| && img[LogEnd(es, wo)] == END_MARKER
  }

  /** From i on nothing has been programmed. */
  ghost predicate BlankFrom(img: seq<Byte>, i: nat) {
    forall x | i <= x < |img| :: img[x] == END_MARKER
  }

  /** A file being written: its name is in place, its size and deletion mark are still blank. */
  ghost predicate PendingAt(img: seq<Byte>, i: nat, name: seq<Byte>, data: seq<Byte>) {
    var n, d := |name|, DataAt(i, |name|, true);
    && GoodName(name) && d + |data| + 4 <= |img| && img[i..i + n] == name && img[i + n] == 0
    && (forall x | d - 8 <= x < d :: img[x] == END_MARKER)
    && img[d..d + |data|] == data && BlankFrom(img, d + |data|)
  }

  /** Entries that take the same room lie at the same places. */
  lemma {:induction false} OffSame(es: seq<Entry>, es': seq<Entry>, wo: bool, k: nat)
    requires k <= |es| && k <= |es'|
    requires forall i | 0 <= i < k :: es'[i].name == es[i].name && es'[i].data == es[i].data
    ensures Off(es', wo, k) == Off(es, wo, k)
  {
    if k > 0 { OffSame(es, es', wo, k - 1); }
  }

  lemma {:induction false} OffOrder(es: seq<Entry>, wo: bool, j: nat, k: nat)
    requires j < k <= |es|
    ensures NextAt(Off(es, wo, j), |es[j].name|, |es[j].data|, wo) <= Off(es, wo, k)
    decreases k
  {
    if j < k - 1 { OffOrder(es, wo, j, k - 1); }
  }

  lemma OffAligned(es: seq<Entry>, k: nat)
    requires k <= |es|
    ensures Off(es, true, k) % 4 == 0
  {
  }

  /* ---- What the log means ---- */

  function LowerChar(c: Byte): Byte { if 65 <= c <= 90 then c + 32 else c }

  function Lower(s: seq<Byte>): (r: seq<Byte>)
    ensures |r| == |s| && forall i | 0 <= i < |s| :: r[i] == LowerChar(s[i])
  {
    seq(|s|, i requires 0 <= i < |s| => LowerChar(s[i]))
  }

  /** The part of a name that look-ups compare: its first 30 bytes. */
  function Key(name: seq<Byte>): (k: seq<Byte>)
    ensures |name| <= MAX_FNAME_LENGTH ==> k == name
  {
    if |name| <= MAX_FNAME_LENGTH then name else name[..MAX_FNAME_LENGTH]
  }

  /** Upper and lower case are the same. */
  predicate SameName(a: seq<Byte>, b: seq<Byte>) { Lower(a) == Lower(b) }

  /** Equal letter by letter, but for the case of the letters A to Z. */
  ghost predicate CaseEqual(a: seq<Byte>, b: seq<Byte>) {
    && |a| == |b|
    && forall i | 0 <= i < |a| ::
         a[i] == b[i] || (65 <= a[i] <= 90 && b[i] == a[i] + 32) || (65 <= b[i] <= 90 && a[i] == b[i] + 32)
  }

  lemma SameNameIs(a: seq<Byte>, b: seq<Byte>)
    ensures SameName(a, b) <==> CaseEqual(a, b)
  {
    if Lower(a) == Lower(b) {
      assert forall i | 0 <= i < |a| :: Lower(a)[i] == LowerChar(a[i]) && Lower(b)[i] == LowerChar(b[i]);
    }
    if CaseEqual(a, b) {
      assert forall i | 0 <= i < |a| :: Lower(a)[i] == Lower(b)[i];
    }
  }

  /** Entry k is a live file whose name is that of fname but for case, as far as its first 30 bytes. */
  ghost predicate IsNamed(es: seq<Entry>, k: nat, fname: seq<Byte>) {
    k < |es| && !es[k].deleted && CaseEqual(es[k].name, if |fname| <= 30 then fname else fname[..30])
  }

  ghost predicate FirstNamed(es: seq<Entry>, k: nat, fname: seq<Byte>) {
    IsNamed(es, k, fname) && forall i | 0 <= i < k :: !IsNamed(es, i, fname)
  }

  lemma NamedIs(es: seq<Entry>, fname: seq<Byte>)
    ensures NoMatch(es, Key(fname)) <==> forall k: nat :: !IsNamed(es, k, fname)
    ensures forall k: nat :: IsFirstMatch(es, Key(fname), k) <==> FirstNamed(es, k, fname)
  {
    hide SameName, CaseEqual;
    forall i | 0 <= i < |es| ensures Matches(es[i], Key(fname)) <==> IsNamed(es, i, fname) {
      SameNameIs(es[i].name, Key(fname));
    }
  }

  ghost predicate Matches(e: Entry, name: seq<Byte>) {
    !e.deleted && SameName(e.name, name)
  }

  ghost predicate IsFirstMatch(es: seq<Entry>, name: seq<Byte>, k: nat) {
    k < |es| && Matches(es[k], name) && forall i | 0 <= i < k :: !Matches(es[i], name)
  }

  ghost predicate NoMatch(es: seq<Entry>, name: seq<Byte>) {
    forall i | 0 <= i < |es| :: !Matches(es[i], name)
  }

  /** At most one live entry for each name, upper and lower case being the same. */
  ghost predicate UniqueLive(es: seq<Entry>) {
    forall i, j | 0 <= i < j < |es| && !es[i].deleted && !es[j].deleted :: !SameName(es[i].name, es[j].name)
  }

  /** The files: lower-case name to contents. */
  ghost function FileMap(es: seq<Entry>): map<seq<Byte>, seq<Byte>> {
    if es == [] then map[]
    else
      var e, m := es[|es| - 1], FileMap(es[..|es| - 1]);
      if e.deleted then m else m[Lower(e.name) := e.data]
  }

  /** The file map says what a lookup finds. */
  lemma {:induction false} MapFinds(es: seq<Entry>, name: seq<Byte>)
    requires UniqueLive(es)
    ensures Lower(name) in FileMap(es) <==> !NoMatch(es, name)
    ensures forall k | 0 <= k < |es| && Matches(es[k], name) ::
        Lower(name) in FileMap(es) && FileMap(es)[Lower(name)] == es[k].data
  {
    if es != [] {
      var front, n := es[..|es| - 1], |es| - 1;
      MapFinds(front, name);
      assert forall k | 0 <= k < n :: front[k] == es[k];
      assert NoMatch(es, name) <==> NoMatch(front, name) && !Matches(es[n], name);
      assert forall k | 0 <= k < n && Matches(es[k], name) :: es[n].deleted || !SameName(es[k].name, es[n].name);
    }
  }

  /** Entry k is marked deleted; nothing else changes. */
  ghost function Tombstoned(es: seq<Entry>, k: nat): seq<Entry>
    requires k < |es|
  {
    es[k := es[k].(deleted := true)]
  }

  /** Deleting the live entry of a name removes that name from the file map, and only that. */
  lemma {:induction false} MapDelete(es: seq<Entry>, k: nat)
    requires UniqueLive(es) && k < |es| && !es[k].deleted
    ensures FileMap(Tombstoned(es, k)) == FileMap(es) - {Lower(es[k].name)} && UniqueLive(Tombstoned(es, k))
    ensures NoMatch(Tombstoned(es, k), es[k].name)
  {
    var n := |es| - 1;
    var front, e, es' := es[..n], es[n], Tombstoned(es, k);
    if k == n {
      assert es'[..n] == front;
      assert NoMatch(front, e.name);
      MapFinds(front, e.name);
    } else {
      assert es'[..n] == Tombstoned(front, k);
      MapDelete(front, k);
    }
  }

  /** A new entry for a name not in use adds it to the file map. */
  lemma MapAppend(es: seq<Entry>, e: Entry)
    requires UniqueLive(es) && NoMatch(es, e.name) && !e.deleted
    ensures FileMap(es + [e]) == FileMap(es)[Lower(e.name) := e.data] && UniqueLive(es + [e]) &&
        Lower(e.name) !in FileMap(es)
  {
    assert (es + [e])[..|es|] == es;
    MapFinds(es, e.name);
  }

  /* ---- Frames ---- */

  /** An entry depends on its own bytes only. */
  lemma EntryFrame(img: seq<Byte>, img': seq<Byte>, i: nat, e: Entry, wo: bool)
    requires EntryAt(img, i, e, wo) && |img'| == |img|
    requires var end := DataAt(i, |e.name|, wo) + |e.data|; forall x | i <= x < end :: img'[x] == img[x]
    ensures EntryAt(img', i, e, wo)
  {
    var n, d := |e.name|, DataAt(i, |e.name|, wo);
    assert img'[i..i + n] == img[i..i + n];
    assert img'[d - 4..d] == img[d - 4..d];
    assert img'[d..d + |e.data|] == img[d..d + |e.data|];
  }

  /** Changes from the end of the log on leave its entries as they are. */
  lemma EntriesFrame(img: seq<Byte>, img': seq<Byte>, es: seq<Entry>, wo: bool)
    requires Entries(img, es, wo) && |img'| == |img| && LogEnd(es, wo) <= |img|
    requires forall x | 0 <= x < LogEnd(es, wo) :: img'[x] == img[x]
    ensures Entries(img', es, wo)
  {
    hide EntryAt, Off, DataAt, NextAt;
    forall k | 0 <= k < |es| ensures EntryAt(img', Off(es, wo, k), es[k], wo) {
      var i, end := Off(es, wo, k), DataAt(Off(es, wo, k), |es[k].name|, wo) + |es[k].data|;
      OffOrder(es, wo, k, |es|);
      EntryFrame(img, img', i, es[k], wo);
    }
  }

  /** Setting the deletion field of entry k. */
  lemma EntriesTombstone(img: seq<Byte>, img': seq<Byte>, es: seq<Entry>, k: nat)
    requires Entries(img, es, true) && k < |es| && !es[k].deleted
    requires var d := DataAt(Off(es, true, k), |es[k].name|, true); d <= |img| && img' == img[d - 8 := FILE_DELETED]
    ensures Entries(img', Tombstoned(es, k), true) && LogEnd(Tombstoned(es, k), true) == LogEnd(es, true)
  {
    hide EntryAt, Off, DataAt, NextAt;
    var es' := Tombstoned(es, k);
    forall j | 0 <= j <= |es| ensures Off(es', true, j) == Off(es, true, j) { OffSame(es, es', true, j); }
    forall j | 0 <= j < |es| ensures EntryAt(img', Off(es, true, j), es'[j], true) {
      if j == k {
        TombstoneOne(img, img', Off(es, true, k), es[k]);
      } else {
        TombstoneOther(img, img', es, k, j);
      }
    }
  }

  lemma EntryEnds(img: seq<Byte>, i: nat, e: Entry, wo: bool)
    requires EntryAt(img, i, e, wo)
    ensures DataAt(i, |e.name|, wo) + |e.data| <= |img|
  {
  }

  lemma TombstoneOther(img: seq<Byte>, img': seq<Byte>, es: seq<Entry>, k: nat, j: nat)
    requires Entries(img, es, true) && k < |es| && j < |es| && j != k
    requires var d := DataAt(Off(es, true, k), |es[k].name|, true); d <= |img| && img' == img[d - 8 := FILE_DELETED]
    ensures EntryAt(img', Off(es, true, j), es[j], true)
  {
    hide EntryAt, Off, DataAt, NextAt, Le32, DelField, EntryOk;
    var i, end := Off(es, true, j), DataAt(Off(es, true, j), |es[j].name|, true) + |es[j].data|;
    var d := DataAt(Off(es, true, k), |es[k].name|, true);
    assert end <= |img| by { EntryEnds(img, i, es[j], true); }
    if j < k { OffOrder(es, true, j, k); } else { OffOrder(es, true, k, j); }
    assert d - 8 < i || end <= d - 8;
    EntryFrame(img, img', i, es[j], true);
  }

  lemma TombstoneOne(img: seq<Byte>, img': seq<Byte>, i: nat, e: Entry)
    requires EntryAt(img, i, e, true) && img' == img[DataAt(i, |e.name|, true) - 8 := FILE_DELETED]
    ensures EntryAt(img', i, e.(deleted := true), true)
  {
    var n, d := |e.name|, DataAt(i, |e.name|, true);
    assert img'[i..i + n] == img[i..i + n];
    assert img'[d - 4..d] == img[d - 4..d];
    assert img'[d..d + |e.data|] == img[d..d + |e.data|];
  }
}
