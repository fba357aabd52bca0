/** The flash helpers behind the write-once file system: sectors, unaligned writes, formatting. */
module Flash {
  import opened Octets
  import opened WofsLog
  import opened RomScan
  import opened Wofs
  import opened Arith

  /** Where sector i starts, counted from the start of the flash. */
  function SectorStart(sizes: seq<nat>, i: nat): nat
    requires i <= |sizes|
  {
    if i == 0 then 0 else SectorStart(sizes, i - 1) + sizes[i - 1]
  }

  lemma {:induction false} StartOrder(sizes: seq<nat>, i: nat, j: nat)
    requires i <= j <= |sizes|
    ensures SectorStart(sizes, i) <= SectorStart(sizes, j)
    decreases j
  {
    if i < j { StartOrder(sizes, i, j - 1); }
  }

  ghost predicate InSector(sizes: seq<nat>, i: nat, address: nat) {
    i < |sizes| && SectorStart(sizes, i) <= address < SectorStart(sizes, i + 1)
  }

  lemma SectorNotBefore(sizes: seq<nat>, s: nat, t: nat, address: nat)
    requires InSector(sizes, t, address) && s <= |sizes| && SectorStart(sizes, s) <= address
    ensures s <= t
  {
    if t < s { StartOrder(sizes, t + 1, s); }
  }

  /** flashh_find_sector for sectors of different sizes: the sector of an address, its first and its last address. */
  method FindSector(sizes: seq<nat>, address: nat) returns (sector: nat, start: nat, end: int)
    requires sizes != [] && address < SectorStart(sizes, |sizes|)
    ensures InSector(sizes, sector, address) && start == SectorStart(sizes, sector) &&
        end == SectorStart(sizes, sector + 1) - 1
  {
    var total, i := 0, 0;
    while total <= address && i < |sizes|
      invariant i <= |sizes| && total == SectorStart(sizes, i) && (i > 0 ==> SectorStart(sizes, i - 1) <= address)
    {
      total := total + sizes[i];
      i := i + 1;
    }
    start := total - sizes[i - 1];
    end := total - 1;
    sector := i - 1;
  }

  ghost function Uniform(n: nat, size: nat): (s: seq<nat>)
    ensures |s| == n && forall i | 0 <= i < n :: s[i] == size
  {
    seq(n, _ => size)
  }

  /** flashh_find_sector for n sectors of one size gives what the general search does. */
  method FindUniformSector(size: nat, address: nat, ghost n: nat) returns (sector: nat, start: nat, end: int)
    requires size > 0 && address < n * size
    ensures var sizes := Uniform(n, size);
            InSector(sizes, sector, address) && start == SectorStart(sizes, sector) &&
                end == SectorStart(sizes, sector + 1) - 1
  {
    sector := address / size;
    start := sector * size;
    end := (sector + 1) * size - 1;
    Within(address, size);
    if sector >= n { MulOrder(n, sector, size); }
    UniformStart(n, size, sector);
    UniformStart(n, size, sector + 1);
  }

  lemma Within(address: nat, size: nat)
    requires size > 0
    ensures address / size * size <= address < (address / size + 1) * size
  {
    assert address == address / size * size + address % size;
  }

  lemma {:induction false} UniformStart(n: nat, size: nat, i: nat)
    requires i <= n
    ensures SectorStart(Uniform(n, size), i) == i * size
  {
    if i > 0 {
      UniformStart(n, size, i - 1);
      assert i * size == (i - 1) * size + size;
    }
  }

  /** platform_flash_get_first_free_block_address: the first sector boundary not below the used size, and its sector. */
  method FirstFreeBlock(sizes: seq<nat>, used: nat) returns (address: nat, sector: nat)
    requires 0 < used <= SectorStart(sizes, |sizes|)
    ensures 0 < sector <= |sizes| && address == SectorStart(sizes, sector) && used <= address
    ensures forall i | 0 <= i < sector :: SectorStart(sizes, i) < used
  {
    var s, start, end := FindSector(sizes, used - 1);
    address, sector := end + 1, s + 1;
    forall i | 0 <= i < sector ensures SectorStart(sizes, i) < used { StartOrder(sizes, i, s); }
  }

  /* ---- Writing ---- */

  class Device {
    const flash: array<Byte>
    const unit: nat
    const sizes: seq<nat>

    ghost predicate Valid()
      reads this
    {
      unit > 0 && flash.Length % unit == 0 && SectorStart(sizes, |sizes|) == flash.Length
    }

    constructor (flash: array<Byte>, unit: nat, sizes: seq<nat>)
      requires unit > 0 && flash.Length % unit == 0 && SectorStart(sizes, |sizes|) == flash.Length
      ensures Valid() && this.flash == flash && this.unit == unit && this.sizes == sizes
    {
      this.flash, this.unit, this.sizes := flash, unit, sizes;
    }

    /** platform_s_flash_write: the hardware programs whole units at unit boundaries. */
    method WriteUnits(at: nat, bytes: seq<Byte>)
      requires Valid() && at % unit == 0 && |bytes| % unit == 0 && at + |bytes| <= flash.Length
      modifies flash
      ensures flash[..] == Programmed(old(flash[..]), at, bytes)
    {
      for i := 0 to |bytes|
        invariant forall x | 0 <= x < flash.Length ::
            flash[x] == if at <= x < at + i then bytes[x - at] else old(flash[x])
      {
        flash[at + i] := bytes[i];
      }
    }

    /** One unit read back, patched from offset `from` on and written again. */
    method PatchUnit(at: nat, from: nat, bytes: seq<Byte>)
      requires Valid() && at % unit == 0 && at + unit <= flash.Length && from + |bytes| <= unit
      modifies flash
      ensures flash[..] == Programmed(old(flash[..]), at + from, bytes)
    {
      ghost var w := flash[..];
      var tmp := flash[at..at + unit];
      var i, k := from, 0;
      while k < |bytes| && i < unit
        invariant k <= |bytes| && i == from + k && |tmp| == unit
        invariant forall x | 0 <= x < unit :: tmp[x] == if from <= x < i then bytes[x - from] else w[at + x]
      {
        tmp := tmp[i := bytes[k]];
        i, k := i + 1, k + 1;
      }
      WriteUnits(at, tmp);
      assert forall x | 0 <= x < flash.Length :: flash[..][x] == Programmed(w, at + from, bytes)[x];
    }

    /** platform_flash_write: any bytes at any address, by writes of whole units only. */
    method Write(toaddr: nat, bytes: seq<Byte>) returns (n: nat)
      requires Valid() && toaddr + |bytes| <= flash.Length
      modifies flash
      ensures flash[..] == Programmed(old(flash[..]), toaddr, bytes) && n == |bytes|
    {
      hide Programmed;
      n := |bytes|;
      var at, from, size := toaddr, bytes, |bytes|;
      ghost var w := flash[..];
      ProgramNone(w, toaddr);
      if at % unit != 0 {
        var rest := at % unit;
        var temp := at - rest;
        UnitRoom(at, unit, flash.Length);
        var first := if unit - rest < size then unit - rest else size;
        PatchUnit(temp, rest, from[..first]);
        size := size - first;
        from := from[first..];
        if size == 0 {
          assert bytes[..first] == bytes;
          return;
        }
        at := temp + unit;
        ProgramJoin(w, toaddr, bytes, first);
      } else {
        assert bytes[..0] == [] && bytes[0..] == bytes;
        ProgramJoin(w, toaddr, bytes, 0);
      }
      WriteAligned(at, from);
    }

    /** The part of platform_flash_write that starts at a unit boundary. */
    method WriteAligned(at: nat, from: seq<Byte>)
      requires Valid() && at % unit == 0 && at + |from| <= flash.Length
      modifies flash
      ensures flash[..] == Programmed(old(flash[..]), at, from)
    {
      hide Programmed, SectorStart;
      ghost var w := flash[..];
      var rest := |from| % unit;
      WholeUnits(|from|, unit, at, flash.Length);
      var temp := |from| - rest;
      var whole, part := from[..temp], from[temp..];
      ProgramNone(w, at);
      ProgramJoin(w, at, from, temp);
      if temp != 0 {
        WriteUnits(at, whole);
      } else {
        assert whole == [];
      }
      ProgramNone(flash[..], at + temp);
      assert rest == 0 ==> part == [];
      if rest != 0 {
        PatchUnit(at + temp, 0, part);
      }
    }
  }

  /** A unit that holds an address of the flash lies in the flash. */
  lemma UnitRoom(at: nat, unit: nat, len: nat)
    requires unit > 0 && len % unit == 0 && at <= len && at % unit != 0
    ensures (at - at % unit) % unit == 0 && at - at % unit + unit <= len
    ensures (at - at % unit + unit) % unit == 0
  {
    var q, m, r := at / unit, len / unit, at % unit;
    Parts(at, unit);
    Parts(len, unit);
    NotAbove(q, m, unit, r);
    MoreBy(q, m, unit);
    Distribute(q, 1, unit);
    Quotient(q * unit, unit, q, 0);
    Quotient(q * unit + unit, unit, q + 1, 0);
  }

  lemma NotAbove(q: nat, m: nat, u: nat, r: nat)
    requires 0 < r && q * u + r <= m * u
    ensures q < m
  {
    if q >= m { MulOrder(m, q, u); }
  }

  lemma MulOrder(a: nat, b: nat, u: nat)
    ensures a <= b ==> a * u <= b * u
  {
    if a < b { MoreBy(a, b, u); }
  }

  lemma Distribute(a: nat, b: nat, u: nat)
    ensures (a + b) * u == a * u + b * u
  {
  }

  lemma WholeUnits(n: nat, unit: nat, at: nat, len: nat)
    requires unit > 0 && at % unit == 0 && len % unit == 0 && at + n <= len
    ensures (n - n % unit) % unit == 0 && (at + (n - n % unit)) % unit == 0
    ensures n % unit != 0 ==> at + (n - n % unit) + unit <= len
  {
    var q, a, r := n / unit, at / unit, n % unit;
    Distribute(a, q, unit);
    Parts(n, unit);
    Parts(at, unit);
    Quotient(n - r, unit, q, 0);
    Quotient(at + (n - r), unit, a + q, 0);
    Quotient(at + n, unit, a + q, r);
    if r != 0 { UnitRoom(at + n, unit, len); }
  }

  lemma Parts(x: nat, u: nat)
    requires u > 0
    ensures x == x / u * u + x % u
  {
  }

  lemma ProgramNone(w: seq<Byte>, at: nat)
    requires at <= |w|
    ensures Programmed(w, at, []) == w
  {
  }

  /** Programming in two steps. */
  lemma ProgramJoin(w: seq<Byte>, at: nat, bytes: seq<Byte>, k: nat)
    requires at + |bytes| <= |w| && k <= |bytes|
    ensures Programmed(Programmed(w, at, bytes[..k]), at + k, bytes[k..]) == Programmed(w, at, bytes)
  {
  }

  /* ---- Formatting ---- */

  /** Blank from a on, once sectors a..b are erased and everything from z on was blank. */
  ghost predicate Blank(w: seq<Byte>, a: nat) {
    forall x | a <= x < |w| :: w[x] == END_MARKER
  }

  /** platform_flash_erase_sector. */
  method EraseSector(flash: array<Byte>, sizes: seq<nat>, i: nat)
    requires i < |sizes| && SectorStart(sizes, |sizes|) == flash.Length
    modifies flash
    ensures forall x | 0 <= x < flash.Length :: flash[x] == if SectorStart(sizes, i) <= x < SectorStart(sizes, i + 1)
        then END_MARKER else old(flash[x])
  {
    StartOrder(sizes, i + 1, |sizes|);
    for x := SectorStart(sizes, i) to SectorStart(sizes, i + 1)
      invariant forall y | 0 <= y < flash.Length ::
          flash[y] == if SectorStart(sizes, i) <= y < x then END_MARKER else old(flash[y])
    {
      flash[x] := END_MARKER;
    }
  }

  /**
    wofs_format: erase from the first free sector to the one that holds the end of the log.  Where the hardware refuses
    a sector (fails), the rest is left alone; else the whole area is blank, and so holds the empty log.
   */
  method Format(flash: array<Byte>, sizes: seq<nat>, used: nat, fails: set<nat>, ghost es: seq<Entry>)
      returns (ok: bool)
    requires 0 < used && SectorStart(sizes, |sizes|) == flash.Length
    requires exists s: nat :: s <= |sizes| && IsAreaOf(sizes, used, s) && SectorStart(sizes, s) < flash.Length
                              && AreaOk(flash[..], SectorStart(sizes, s), es)
    modifies flash
    ensures ok ==> exists s: nat :: s <= |sizes| && IsAreaOf(sizes, used, s) && Blank(flash[..], SectorStart(sizes, s))
    ensures forall x | 0 <= x < used :: x < flash.Length && flash[x] == old(flash[x])
    ensures fails == {} ==> ok
  {
    hide LogOk, MediumOk, NamesOk, NoMatch, SectorStart;
    ghost var s0: nat :| s0 <= |sizes| && IsAreaOf(sizes, used, s0) && SectorStart(sizes, s0) < flash.Length &&
        AreaOk(flash[..], SectorStart(sizes, s0), es);
    StartOrder(sizes, s0, |sizes|);
    var pbase, sect := FirstFreeBlock(sizes, used);
    SameArea(sizes, used, sect, s0);
    var last := LogEndOf(flash, pbase, es);
    var sectLast, start, end := FindSector(sizes, pbase + last);
    ghost var w := flash[..];
    SectorNotBefore(sizes, sect, sectLast, pbase + last);
    ok := EraseRange(flash, sizes, sect, sectLast, fails);
    if ok { ErasedBlank(w, flash[..], pbase, SectorStart(sizes, sectLast + 1), es); }
  }

  /** The end of the log in the area from pbase on. */
  method LogEndOf(flash: array<Byte>, pbase: nat, ghost es: seq<Entry>) returns (last: nat)
    requires pbase < flash.Length && AreaOk(flash[..], pbase, es)
    ensures last == LogEnd(es, true) && pbase + last < flash.Length
  {
    hide Off, EntryAt;
    var n := flash.Length - pbase;
    var area := new Byte[n];
    for i := 0 to n
      invariant forall x | 0 <= x < i :: area[x] == flash[pbase + x]
    {
      area[i] := flash[pbase + i];
    }
    assert area[..] == flash[..][pbase..];
    NoInvalidName(es);
    var found, base, size;
    ghost var k, steps;
    found, base, size, last, k, steps := OpenFile(area, true, [1], es, Closed);
  }

  /** The loop of wofs_format. */
  method EraseRange(flash: array<Byte>, sizes: seq<nat>, first: nat, sectLast: nat, fails: set<nat>) returns (ok: bool)
    requires first <= sectLast < |sizes| && SectorStart(sizes, |sizes|) == flash.Length
    modifies flash
    ensures fails == {} ==> ok
    ensures forall x | 0 <= x < flash.Length && x < SectorStart(sizes, first) :: flash[x] == old(flash[x])
    ensures ok ==> forall x | 0 <= x < flash.Length ::
              flash[x] == if SectorStart(sizes, first) <= x < SectorStart(sizes, sectLast + 1) then END_MARKER
                  else old(flash[x])
  {
    hide SectorStart;
    var sect := first;
    while sect <= sectLast
      invariant first <= sect <= sectLast + 1
      invariant forall x | 0 <= x < flash.Length ::
                  flash[x] == if SectorStart(sizes, first) <= x < SectorStart(sizes, sect) then END_MARKER
                      else old(flash[x])
    {
      if sect in fails {
        return false;
      }
      StartOrder(sizes, first, sect);
      StartOrder(sizes, sect, sect + 1);
      EraseSector(flash, sizes, sect);
      sect := sect + 1;
    }
    ok := true;
  }

  lemma ErasedBlank(w: seq<Byte>, w': seq<Byte>, pbase: nat, to: nat, es: seq<Entry>)
    requires AreaOk(w, pbase, es) && pbase + LogEnd(es, true) < to && |w'| == |w|
    requires forall x | 0 <= x < |w| :: w'[x] == if pbase <= x < to then END_MARKER else w[x]
    ensures Blank(w', pbase)
  {
    hide Off, EntryAt;
    forall x | pbase <= x < |w'| ensures w'[x] == END_MARKER {
      if x >= to { assert w[pbase..][x - pbase] == w[x]; }
    }
  }

  /** Sector s starts the area after the used part of the flash. */
  ghost predicate IsAreaOf(sizes: seq<nat>, used: nat, s: nat) {
    && 0 < s <= |sizes| && used <= SectorStart(sizes, s) && forall i | 0 <= i < s :: SectorStart(sizes, i) < used
  }

  lemma SameArea(sizes: seq<nat>, used: nat, s: nat, t: nat)
    requires IsAreaOf(sizes, used, s) && IsAreaOf(sizes, used, t)
    ensures s == t
  {
  }

  /** The area from pbase on holds the log es and is blank after it. */
  ghost predicate AreaOk(w: seq<Byte>, pbase: nat, es: seq<Entry>) {
    pbase <= |w| && MediumOk(w[pbase..], es, true, false, [], []) && NamesOk(es)
  }

  /** A blank area is an empty file system. */
  lemma BlankIsEmpty(w: seq<Byte>, pbase: nat)
    requires pbase < |w| && Blank(w, pbase) && |w| - pbase <= 0x7FFF_FFF0 && (|w| - pbase) % 4 == 0
    ensures AreaOk(w, pbase, []) && FileMap([]) == map[]
  {
    assert LogEnd([], true) == 0;
    assert w[pbase..][0] == w[pbase];
  }
}
