// f_getfree: the number of free clusters, from the cached count or by a scan of the FAT.
module FreeSpace {
  import opened Arith
  import opened Words
  import opened Volume
  import opened Window
  import opened FatTable
  import opened FatAccess
  import opened Chains

  // The scan of FAT16 and FAT32 volumes also looks at the reserved entries 0 and 1. It counts the
  // free clusters exactly when neither of them is zero.
  lemma ReservedEntries(f: seq<nat>)
    requires |f| >= 2
    ensures FreeFrom(f, 0) == FreeCount(f) <==> f[0] != 0 && f[1] != 0
    ensures FreeFrom(f, 0) >= FreeCount(f)
  {
    assert FreeFrom(f, 0) == (if f[0] == 0 then 1 else 0) + FreeFrom(f, 1);
    assert FreeFrom(f, 1) == (if f[1] == 0 then 1 else 0) + FreeFrom(f, 2);
  }

  // The entry at index k is zero, read from the window at byte offset o.
  lemma EntryInWindow(s: State, k: nat, o: nat)
    requires Sound(s) && k < s.geo.nFatent && s.geo.fsType != FAT12
    requires s.winsect == SectorOf(s.geo, EntryOffset(s.geo.fsType, k)) && o == EntryOffset(s.geo.fsType, k) % SS
    ensures o + EntrySize(s.geo.fsType) <= SS
    ensures Fat(s.geo, Logical(s))[k] ==
      if s.geo.fsType == FAT16 then LdWord(s.win, o) else LdDword(s.win, o) % 0x1000_0000
  {
    hide Fat, Table;
    var e, n := EntryOffset(s.geo.fsType, k), EntrySize(s.geo.fsType);
    EntryInTable(s.geo, k);
    Aligned(s.geo.fsType, k);
    SectorOfIsFat(s.geo, e);
    LogicalOfWindow(s);
    WindowShows(s, e, n);
    EntryFromBytes(s.geo, Logical(s), k, s.win[o..o + n]);
  }

  lemma LogicalOfWindow(s: State)
    requires Sound(s) && s.winsect < |s.data| && !IsHidden(s.geo, s.winsect)
    ensures s.win == Logical(s)[s.winsect]
  {
  }

  // The number f_getfree reports when no cached count can be used and no read fails.
  function Scanned(t: FatType, f: seq<nat>): nat {
    if t == FAT12 then FreeCount(f) else FreeFrom(f, 0)
  }

  // A scan has read the entries before number read, n of which are zero.
  ghost predicate HasRead(t: FatType, f: seq<nat>, n: nat, read: nat) {
    read <= |f| && n + FreeFrom(f, read) == Scanned(t, f)
  }

  // Entry c is the first one that is 1.
  ghost predicate IsFirstBad(f: seq<nat>, c: nat) {
    IsCluster(f, c) && f[c] == 1 && forall d :: 2 <= d < c ==> f[d] != 1
  }

  // The scan of a FAT12 volume, entry by entry through get_fat.
  method ScanFat12(fs: Fatfs) returns (res: FResult, nfree: u32, ghost read: nat)
    requires fs.Valid() && fs.geo.fsType == FAT12
    modifies fs`wflag, fs`winsect, fs.win, fs.disk
    ensures fs.Valid() && Quiet(old(fs.Now()), fs.Now())
    ensures HasRead(fs.geo.fsType, Fat(fs.geo, old(fs.View())), nfree, read) && (res == Ok <==> read == fs.geo.nFatent)
    ensures res == Ok || (res == DiskErr && !fs.disk.reliable) || (res == IntErr && IsFirstBad(Fat(fs.geo, old(fs.View())), read))
    ensures res == Ok ==> forall c :: 2 <= c < fs.geo.nFatent ==> Fat(fs.geo, old(fs.View()))[c] != 1
  {
    hide Fat, Undisturbed, Reached;
    ghost var s := fs.Now();
    ghost var f := Fat(fs.geo, fs.View());
    QuietRefl(s);
    EntriesAreSmall(fs.geo, fs.View());
    res, nfree, read := Ok, 0, 2;
    var clst: u32 := 2;
    while clst < fs.geo.nFatent
      invariant fs.Valid() && Quiet(s, fs.Now()) && fs.View() == Logical(s)
      invariant 2 <= clst <= fs.geo.nFatent && nfree <= clst
      invariant nfree + FreeFrom(f, clst) == FreeCount(f)
      invariant forall c :: 2 <= c < clst ==> f[c] != 1
    {
      ghost var t := fs.Now();
      var stat := GetFat(fs, clst);
      QuietCompose(s, t, fs.Now());
      QuietKeepsView(t, fs.Now());
      if stat == ALL_ONES {
        return DiskErr, nfree, clst;
      }
      if stat == 1 {
        return IntErr, nfree, clst;
      }
      if stat == 0 {
        nfree := nfree + 1;
      }
      clst := clst + 1;
    }
    read := clst;
  }

  lemma NextBytes(x: nat, size: nat, k: nat)
    requires (size == 2 && x == 2 * k) || (size == 4 && x == 4 * k)
    ensures x % SS + size <= SS
    ensures x % SS + size == SS ==> (x + size) % SS == 0 && (x + size) / SS == x / SS + 1
    ensures x % SS + size < SS ==> (x + size) % SS == x % SS + size && (x + size) / SS == x / SS
  {
    var q, r := x / SS, x % SS;
    assert x == SS * q + r;
    if size == 2 {
      assert r == 2 * (k - 256 * q);
    } else {
      assert r == 4 * (k - 128 * q);
    }
    if r + size == SS {
      Quotient(x + size, SS, q + 1, 0);
    } else {
      Quotient(x + size, SS, q, r + size);
    }
  }

  // Offset and sector of entry k, and of the entry after it.
  lemma NextEntry(g: Geometry, k: nat)
    requires g.fsType != FAT12
    ensures var e, d, size := EntryOffset(g.fsType, k), EntryOffset(g.fsType, k + 1), EntrySize(g.fsType);
      && e % SS + size <= SS
      && (e % SS + size == SS ==> d % SS == 0 && SectorOf(g, d) == SectorOf(g, e) + 1)
      && (e % SS + size < SS ==> d % SS == e % SS + size && SectorOf(g, d) == SectorOf(g, e))
  {
    hide SoundLayout;
    NextBytes(EntryOffset(g.fsType, k), EntrySize(g.fsType), k);
  }

  lemma FirstEntry(g: Geometry)
    requires g.fsType != FAT12
    ensures EntryOffset(g.fsType, 0) % SS == 0 && SectorOf(g, EntryOffset(g.fsType, 0)) == g.fatbase
  {
  }

  method ScanSector(fs: Fatfs, sect: u32, ghost s: State) returns (res: FResult)
    requires fs.Valid() && Quiet(s, fs.Now()) && sect < |fs.disk.data| && !IsHidden(fs.geo, sect)
    modifies fs`wflag, fs`winsect, fs.win, fs.disk
    ensures fs.Valid() && Quiet(s, fs.Now()) && fs.View() == Logical(s)
    ensures res == Ok ==> fs.winsect == sect
    ensures res == Ok || (res == DiskErr && !fs.disk.reliable)
  {
    hide Undisturbed, Reached, Logical;
    ghost var t := fs.Now();
    QuietKeepsView(s, t);
    res := MoveWindow(fs, sect);
    QuietCompose(s, t, fs.Now());
    QuietKeepsView(t, fs.Now());
  }

  // The scan of a FAT16 or FAT32 volume, a sector at a time. Entries end at sector boundaries, so
  // i runs through the bytes left in the window.
  method ScanAligned(fs: Fatfs) returns (res: FResult, nfree: u32, ghost read: nat)
    requires fs.Valid() && fs.geo.fsType != FAT12
    modifies fs`wflag, fs`winsect, fs.win, fs.disk
    ensures fs.Valid() && Quiet(old(fs.Now()), fs.Now())
    ensures HasRead(fs.geo.fsType, Fat(fs.geo, old(fs.View())), nfree, read) && (res == Ok <==> read == fs.geo.nFatent)
    ensures res == Ok || (res == DiskErr && !fs.disk.reliable)
  {
    hide Fat, Table, Undisturbed, Reached, Logical, SoundLayout, EntryOffset, SectorOf;
    ghost var s := fs.Now();
    ghost var f := Fat(fs.geo, fs.View());
    QuietRefl(s);
    SmallTable(fs.geo);
    FirstEntry(fs.geo);
    res, nfree, read := Ok, 0, 0;
    var size := EntrySize(fs.geo.fsType);
    var clst := fs.geo.nFatent;
    var sect: nat := fs.geo.fatbase;
    var i, p := 0, 0;
    ghost var k := 0;
    ghost var o := EntryOffset(fs.geo.fsType, k);
    while clst > 0
      invariant fs.Valid() && Quiet(s, fs.Now()) && fs.View() == Logical(s)
      invariant res == Ok && k == fs.geo.nFatent - clst && nfree <= k
      invariant nfree + FreeFrom(f, k) == FreeFrom(f, 0)
      invariant o == EntryOffset(fs.geo.fsType, k)
      invariant i == 0 ==> o % SS == 0 && sect == SectorOf(fs.geo, o)
      invariant i != 0 ==> p == o % SS == SS - i && fs.winsect == SectorOf(fs.geo, o) && sect == fs.winsect + 1
    {
      EntryInTable(fs.geo, k);
      NextEntry(fs.geo, k);
      if i == 0 {
        SectorOfIsFat(fs.geo, o);
        res := ScanSector(fs, sect, s);
        sect := sect + 1;
        if res != Ok {
          read := k;
          return;
        }
        p := 0;
        i := SS;
      }
      EntryInWindow(fs.Now(), k, p);
      if (if fs.geo.fsType == FAT16 then LdWord(fs.win[..], p) else LdDword(fs.win[..], p) % 0x1000_0000) == 0 {
        nfree := nfree + 1;
      }
      p, i := p + size, i - size;
      clst := clst - 1;
      k := k + 1;
      o := EntryOffset(fs.geo.fsType, k);
    }
    read := k;
  }

  // The scanned number becomes the cached one, even the partial number of a scan that failed.
  method GetFree(fs: Fatfs) returns (res: FResult, nclst: u32, ghost read: nat)
    requires fs.Valid()
    modifies fs`wflag, fs`winsect, fs`freeClust, fs`fsiFlag, fs.win, fs.disk
    ensures fs.Valid() && Quiet(old(fs.Now()), fs.Now())
    ensures old(fs.freeClust) <= fs.geo.nFatent - 2 ==>
      res == Ok && nclst == old(fs.freeClust) && fs.Now() == old(fs.Now()) && fs.Kept() == old(fs.Kept())
    ensures old(fs.freeClust) > fs.geo.nFatent - 2 ==>
      HasRead(fs.geo.fsType, Fat(fs.geo, old(fs.View())), nclst, read) && (res == Ok <==> read == fs.geo.nFatent)
    ensures old(fs.freeClust) > fs.geo.nFatent - 2 ==> fs.fsiFlag == Flagged(old(fs.fsiFlag))
    ensures fs.freeClust == nclst
    ensures res == Ok || (res == DiskErr && !fs.disk.reliable)
      || (res == IntErr && fs.geo.fsType == FAT12 && IsFirstBad(Fat(fs.geo, old(fs.View())), read))
  {
    hide Fat, Undisturbed, Reached, FreeCount, FreeFrom;
    if fs.freeClust <= fs.geo.nFatent - 2 {
      QuietRefl(fs.Now());
      res, nclst, read := Ok, fs.freeClust, 0;
    } else {
      var nfree;
      if fs.geo.fsType == FAT12 {
        res, nfree, read := ScanFat12(fs);
      } else {
        res, nfree, read := ScanAligned(fs);
      }
      fs.freeClust := nfree;
      fs.fsiFlag := Flagged(fs.fsiFlag);
      nclst := nfree;
    }
  }

  // The cached count and the scan agree: f_getfree reports the number of free clusters, from
  // either source, exactly when the reserved entries are in order.
  lemma ScanIsExact(g: Geometry, v: Image)
    requires Holds(g, v)
    ensures Scanned(g.fsType, Fat(g, v)) == FreeCount(Fat(g, v)) <==>
      g.fsType == FAT12 || (Fat(g, v)[0] != 0 && Fat(g, v)[1] != 0)
  {
    hide Fat;
    ReservedEntries(Fat(g, v));
  }

  lemma {:induction false} NoneIsFree(f: seq<nat>, k: nat)
    requires k <= |f|
    ensures FreeFrom(f, k) == 0 <==> forall c :: k <= c < |f| ==> f[c] != 0
    decreases |f| - k
  {
    if k < |f| {
      NoneIsFree(f, k + 1);
    }
  }

  // The number of a scan that has got as far as entry read is right exactly when no entry from there
  // on is free; a complete scan is.
  lemma PartialIsExact(t: FatType, f: seq<nat>, n: nat, read: nat)
    requires HasRead(t, f, n, read)
    ensures n == Scanned(t, f) <==> forall c :: read <= c < |f| ==> f[c] != 0
    ensures read <= |f| && (read == |f| ==> n == Scanned(t, f))
  {
    hide Scanned, FreeFrom;
    NoneIsFree(f, read);
  }

  // When the reserved entries are in order the number of a scan, complete or not, is taken for valid.
  lemma PartialIsPlausible(t: FatType, f: seq<nat>, n: nat, read: nat)
    requires HasRead(t, f, n, read) && |f| >= 2 && (t == FAT12 || (f[0] != 0 && f[1] != 0))
    ensures n <= |f| - 2
  {
    hide FreeFrom;
    ReservedEntries(f);
  }

  // f_getfree again after a scan that has failed: the partial number is reported without an error,
  // and it is wrong exactly when some entry that was not read is free.
  method GetFreeAgain(fs: Fatfs) returns (first: FResult, res: FResult, nclst: u32, ghost read: nat)
    requires fs.Valid() && fs.freeClust > fs.geo.nFatent - 2
    modifies fs`wflag, fs`winsect, fs`freeClust, fs`fsiFlag, fs.win, fs.disk
    ensures fs.Valid() && Quiet(old(fs.Now()), fs.Now())
    ensures var f := Fat(fs.geo, old(fs.View()));
      first != Ok && (fs.geo.fsType == FAT12 || (f[0] != 0 && f[1] != 0)) ==>
        && res == Ok && read < |f|
        && (nclst == FreeCount(f) <==> forall c :: read <= c < |f| ==> f[c] != 0)
  {
    hide Fat, Undisturbed, Reached, FreeCount, FreeFrom, HasRead, Scanned;
    ghost var s := fs.Now();
    ghost var f := Fat(fs.geo, fs.View());
    ghost var again;
    first, nclst, read := GetFree(fs);
    ghost var t, n := fs.Now(), nclst;
    QuietKeepsView(s, t);
    ScanIsExact(fs.geo, Logical(s));
    PartialIsExact(fs.geo.fsType, f, n, read);
    if fs.geo.fsType == FAT12 || (f[0] != 0 && f[1] != 0) {
      PartialIsPlausible(fs.geo.fsType, f, n, read);
    }
    res, nclst, again := GetFree(fs);
    QuietCompose(s, t, fs.Now());
  }
}
