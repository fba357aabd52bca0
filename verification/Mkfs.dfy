/** The image builder of the read-only file system, and the round trip through the file system's own walkers. */
module Mkfs {
  import opened Octets
  import opened WofsLog
  import opened RomScan

  datatype File = File(name: seq<Byte>, data: seq<Byte>)

  /** Names longer than 30 bytes are skipped; any other must be one the walkers can read. */
  predicate Admissible(f: File) {
    |f.name| <= MAX_FNAME_LENGTH ==> GoodName(f.name) && |f.data| < 0xFFFF_FFFF
  }

  /** The entries an image should hold: the files that are not skipped, in order. */
  ghost function Encoded(files: seq<File>): seq<Entry> {
    if files == [] then []
    else
      var f := files[|files| - 1];
      Encoded(files[..|files| - 1]) + if |f.name| > MAX_FNAME_LENGTH then [] else [Entry(f.name, f.data, false)]
  }

  /** File i is in the image and has that name but for case, as far as its first 30 bytes. */
  ghost predicate IsWanted(files: seq<File>, i: nat, fname: seq<Byte>) {
    && i < |files| && |files[i].name| <= 30
    && CaseEqual(files[i].name, if |fname| <= 30 then fname else fname[..30])
  }

  ghost predicate FirstWanted(files: seq<File>, i: nat, fname: seq<Byte>) {
    IsWanted(files, i, fname) && forall j | 0 <= j < i :: !IsWanted(files, j, fname)
  }

  /** The first entry of a name is the first file of that name. */
  lemma {:induction false} WantedIs(files: seq<File>, fname: seq<Byte>, k: nat)
    ensures (exists i: nat :: IsWanted(files, i, fname)) <==> exists j: nat :: IsNamed(Encoded(files), j, fname)
    ensures FirstNamed(Encoded(files), k, fname) ==>
        exists i: nat :: FirstWanted(files, i, fname) && files[i].data == Encoded(files)[k].data
    decreases |files|
  {
    if files != [] {
      var n := |files| - 1;
      var front, f := files[..n], files[n];
      var es, es' := Encoded(front), Encoded(files);
      WantedIs(front, fname, k);
      hide CaseEqual;
      forall i: nat | i < n ensures IsWanted(files, i, fname) <==> IsWanted(front, i, fname) {
        assert files[i] == front[i];
      }
      forall j: nat | j < |es| ensures IsNamed(es', j, fname) <==> IsNamed(es, j, fname) {
        assert es'[j] == es[j];
      }
      NewWanted(files, fname);
      if exists i: nat :: IsWanted(front, i, fname) {
        var i: nat :| IsWanted(front, i, fname);
        assert IsWanted(files, i, fname);
        var j: nat :| IsNamed(es, j, fname);
        assert IsNamed(es', j, fname);
      }
      if FirstNamed(es', k, fname) {
        if k < |es| {
          assert FirstNamed(es, k, fname);
          var i: nat :| FirstWanted(front, i, fname) && front[i].data == es[k].data;
          assert FirstWanted(files, i, fname) && files[i].data == es'[k].data;
        } else {
          assert FirstWanted(files, n, fname) && files[n].data == es'[k].data;
        }
      }
    }
  }

  /** The last file, if it is not skipped, is the last entry. */
  lemma NewWanted(files: seq<File>, fname: seq<Byte>)
    requires files != []
    ensures var n := |files| - 1;
            var es, es' := Encoded(files[..n]), Encoded(files);
            && |es| <= |es'| <= |es| + 1
            && (IsWanted(files, n, fname) <==> |es'| == |es| + 1 && IsNamed(es', |es|, fname))
            && (|es'| == |es| + 1 ==> es'[|es|].data == files[n].data)
  {
  }

  lemma EntryGrow(img: seq<Byte>, more: seq<Byte>, i: nat, e: Entry)
    requires EntryAt(img, i, e, false)
    ensures EntryAt(img + more, i, e, false)
  {
    var n, d, img' := |e.name|, DataAt(i, |e.name|, false), img + more;
    assert img'[i..i + n] == img[i..i + n];
    assert img'[d - 4..d] == img[d - 4..d];
    assert img'[d..d + |e.data|] == img[d..d + |e.data|];
  }

  lemma EntriesGrow(img: seq<Byte>, more: seq<Byte>, es: seq<Entry>)
    requires Entries(img, es, false)
    ensures Entries(img + more, es, false)
  {
    hide EntryAt, Off;
    forall k | 0 <= k < |es| ensures EntryAt(img + more, Off(es, false, k), es[k], false) {
      EntryGrow(img, more, Off(es, false, k), es[k]);
    }
  }

  /** The bytes of one file appended to an image of length i. */
  ghost function FileBytes(f: File, i: nat): seq<Byte> {
    f.name + [0] + Zeros(Align(i + |f.name| + 1) - (i + |f.name| + 1)) + Le32(|f.data|) + f.data
  }

  ghost function Zeros(n: nat): (z: seq<Byte>)
    ensures |z| == n
  {
    seq(n, _ => 0)
  }

  lemma FileAt(img: seq<Byte>, f: File)
    requires GoodName(f.name) && |f.data| < 0xFFFF_FFFF
    ensures EntryAt(img + FileBytes(f, |img|), |img|, Entry(f.name, f.data, false), false)
    ensures |img + FileBytes(f, |img|)| == NextAt(|img|, |f.name|, |f.data|, false)
  {
    hide Le32, Align, Zeros;
    var i, n := |img|, |f.name|;
    var pad, size := Zeros(Align(i + n + 1) - (i + n + 1)), Le32(|f.data|);
    PartsAt(img, f.name, pad, size, f.data);
    assert i + n + 1 + |pad| + 4 == DataAt(i, n, false);
  }

  /** The parts of a file in an image. */
  lemma PartsAt(img: seq<Byte>, name: seq<Byte>, pad: seq<Byte>, size: seq<Byte>, data: seq<Byte>)
    ensures var all := img + (name + [0] + pad + size + data);
            var d := |img| + |name| + 1 + |pad| + |size|;
            && |all| == d + |data| && all[|img|..|img| + |name|] == name && all[|img| + |name|] == 0
            && all[d - |size|..d] == size && all[d..d + |data|] == data
  {
  }

  lemma AppendEntry(img: seq<Byte>, f: File, es: seq<Entry>)
    requires Entries(img, es, false) && |img| == LogEnd(es, false) && GoodName(f.name) && |f.data| < 0xFFFF_FFFF
    ensures var img', es' := img + FileBytes(f, |img|), es + [Entry(f.name, f.data, false)];
            Entries(img', es', false) && |img'| == LogEnd(es', false)
  {
    hide EntryAt, FileBytes, NextAt, DataAt;
    var img', es' := img + FileBytes(f, |img|), es + [Entry(f.name, f.data, false)];
    FileAt(img, f);
    EntriesGrow(img, FileBytes(f, |img|), es);
    forall k | 0 <= k <= |es| ensures Off(es', false, k) == Off(es, false, k) { OffSame(es, es', false, k); }
    forall k | 0 <= k < |es'| ensures EntryAt(img', Off(es', false, k), es'[k], false) {
      if k < |es| { assert es'[k] == es[k]; }
    }
  }

  /** Two files in an image, byte by byte. */
  lemma TwoFiles()
    ensures FileBytes(File([97, 98], [7, 8, 9]), 0) == [97, 98, 0, 0] + [3, 0, 0, 0] + [7, 8, 9]
    ensures FileBytes(File([99], []), 11) == [99, 0, 0, 0, 0] + [0, 0, 0, 0]
  {
    assert Align(3) == 4 && Align(13) == 16;
    assert Zeros(1) == [0] && Zeros(3) == [0, 0, 0];
  }

  /** Rounding to a multiple of 4. */
  method AddPadding(img0: seq<Byte>) returns (img: seq<Byte>)
    ensures img == img0 + Zeros(Align(|img0|) - |img0|)
  {
    img := img0;
    ghost var pad := 0;
    while |img| % ROMFS_ALIGN != 0
      invariant img == img0 + Zeros(pad) && |img0| + pad <= Align(|img0|)
      decreases Align(|img0|) - |img0| - pad
    {
      assert Zeros(pad) + [0] == Zeros(pad + 1);
      img := img + [0];
      pad := pad + 1;
    }
  }

  /** mkfs's encoding of one file, byte by byte. */
  method AddFile(img0: seq<Byte>, f: File) returns (img: seq<Byte>)
    requires |f.name| <= MAX_FNAME_LENGTH
    ensures img == img0 + FileBytes(f, |img0|)
  {
    img := img0;
    for i := 0 to |f.name|
      invariant img == img0 + f.name[..i]
    {
      img := img + [f.name[i]];
    }
    img := img + [0];
    img := AddPadding(img);
    ghost var front := img;
    var n := |f.data|;
    img := img + [n % 0x100];
    img := img + [n / 0x100 % 0x100];
    img := img + [n / 0x1_0000 % 0x100];
    img := img + [n / 0x100_0000 % 0x100];
    assert img == front + Le32(n);
    for i := 0 to |f.data|
      invariant img == front + Le32(n) + f.data[..i]
    {
      img := img + [f.data[i]];
    }
    assert f.data[..n] == f.data;
    assert img == img0 + FileBytes(f, |img0|);
  }

  /** mkfs: the image holds exactly the files that are not skipped, then the end marker. */
  method Mkfs(files: seq<File>) returns (img: seq<Byte>)
    requires forall i | 0 <= i < |files| :: Admissible(files[i])
    ensures LogOk(img, Encoded(files), false) && |img| == LogEnd(Encoded(files), false) + 1
  {
    hide FileBytes, EntryAt;
    img := [];
    ghost var es: seq<Entry> := [];
    for i := 0 to |files|
      invariant es == Encoded(files[..i]) && Entries(img, es, false) && |img| == LogEnd(es, false)
    {
      var f := files[i];
      assert files[..i + 1][..i] == files[..i];
      if |f.name| > MAX_FNAME_LENGTH {
        continue;
      }
      AppendEntry(img, f, es);
      img := AddFile(img, f);
      es := es + [Entry(f.name, f.data, false)];
    }
    assert files[..|files|] == files;
    EntriesGrow(img, [END_MARKER], es);
    img := img + [END_MARKER];
  }

  /**
    Building an image and opening a name: the first file that is not skipped and has that name, but for case, with its
    contents.
   */
  method BuildAndOpen(files: seq<File>, fname: seq<Byte>) returns (found: bool, contents: seq<Byte>, ghost k: nat)
    requires (forall i | 0 <= i < |files| :: Admissible(files[i])) && LogEnd(Encoded(files), false) < MAX_MEDIUM
    ensures found <==> !NoMatch(Encoded(files), Key(fname))
    ensures found <==> exists i: nat :: IsNamed(Encoded(files), i, fname)
    ensures found ==> FirstNamed(Encoded(files), k, fname)
    ensures found <==> exists i: nat :: IsWanted(files, i, fname)
    ensures found ==> exists i: nat :: FirstWanted(files, i, fname) && contents == files[i].data
    ensures found ==> IsFirstMatch(Encoded(files), Key(fname), k) && contents == Encoded(files)[k].data
  {
    hide EntryAt, DataAt, Off;
    var bytes := Mkfs(files);
    var img := new Byte[|bytes|](i requires 0 <= i < |bytes| => bytes[i]);
    assert img[..] == bytes;
    var base, size, last;
    ghost var steps;
    found, base, size, last, k, steps := OpenFile(img, false, fname, Encoded(files), Closed);
    contents := if found then img[base..base + size] else [];
    WantedIs(files, fname, k);
  }

  /** Building an image and listing it gives the names and sizes in order. */
  method BuildAndList(files: seq<File>) returns (all: seq<(seq<Byte>, nat)>)
    requires (forall i | 0 <= i < |files| :: Admissible(files[i])) && LogEnd(Encoded(files), false) < MAX_MEDIUM
    ensures |all| == |Encoded(files)|
    ensures forall k | 0 <= k < |all| :: all[k] == (Encoded(files)[k].name, |Encoded(files)[k].data|)
  {
    hide EntryAt, DataAt, Off;
    var bytes := Mkfs(files);
    var img := new Byte[|bytes|](i requires 0 <= i < |bytes| => bytes[i]);
    assert img[..] == bytes;
    all := ListAll(img, false, Encoded(files));
    NoneDeleted(files);
    ListingAll(Encoded(files));
  }

  lemma {:induction false} NoneDeleted(files: seq<File>)
    ensures forall e | e in Encoded(files) :: !e.deleted
  {
    if files != [] { NoneDeleted(files[..|files| - 1]); }
  }

  lemma {:induction false} ListingAll(es: seq<Entry>)
    requires forall e | e in es :: !e.deleted
    ensures |Listing(es)| == |es| && forall k | 0 <= k < |es| :: Listing(es)[k] == (es[k].name, |es[k].data|)
  {
    if es != [] { ListingAll(es[1..]); }
  }
}
