// sync_fs: writing back the window and the FSINFO sector.
module Sync {
  import opened Words
  import opened Codecs
  import opened Volume
  import opened Window
  import opened FatTable
  import opened FatAccess
  import Mount

  // The FSINFO sector that records the number of free clusters and the last one allocated.
  function FsInfoSector(freeClust: u32, lastClust: u32): (w: Sector)
  {
    StDword(StDword(StDword(StDword(StWord(ZeroSector(), 510, 0xAA55), 0, 0x4161_5252), 484, 0x6141_7272),
                    488, freeClust), 492, lastClust)
  }

  // Writing the FSINFO sector, whether or not the device takes it.
  ghost function InfoWritten(s: State, w: Sector, ok: bool): State
    requires s.geo.volbase + 1 < |s.data|
  {
    var i := s.geo.volbase + 1;
    var t := s.(win := w, winsect := i);
    if ok then t.(data := s.data[i := w], history := s.history + [s.data[i := w]]) else t
  }

  // On a FAT32 volume with a single reserved sector the first FAT sector is where FSINFO goes.
  predicate InfoIsInFat(g: Geometry) {
    g.fsType == FAT32 && g.fatbase == g.volbase + 1
  }

  // There are such volumes among those that mounting accepts: one of 66039 sectors with 65526 clusters
  // of one sector, say.
  lemma SomeInfoIsInFat()
    ensures var p := Mount.Params(512, 1, 1, 1, 0, 66039, 512, 2);
      Mount.Legal(p) && Mount.InRange(p, 0) && SoundLayout(Mount.Described(p, 0)) && InfoIsInFat(Mount.Described(p, 0))
  {
    var p := Mount.Params(512, 1, 1, 1, 0, 66039, 512, 2);
    assert Mount.Clusters(p) == 65526 && Mount.TypeOf(65526) == FAT32;
  }

  lemma InfoIsQuiet(s: State, w: Sector, ok: bool)
    requires Sound(s) && !s.wflag && s.geo.fsType == FAT32 && !InfoIsInFat(s.geo)
    requires s.geo.volbase + 1 < |s.data|
    ensures Sound(InfoWritten(s, w, ok)) && Quiet(s, InfoWritten(s, w, ok))
  {
    AreasInOrder(s.geo);
    VisibleUpdate(s.geo, s.data, s.geo.volbase + 1, w);
    var t := InfoWritten(s, w, ok);
    if Mirrored(s) {
      forall i | InFat(s.geo, i) && s.geo.nFats == 2
        ensures IsCopied(t, i)
      {
        assert IsCopied(s, i);
      }
    }
  }

  // From s to t the window has been written back, and then the FSINFO sector w written, or, when the
  // device did not take it (not ok), left in the window.
  ghost predicate InfoStored(s: State, t: State, w: Sector, ok: bool) {
    exists u :: Quiet(s, u) && !u.wflag && u.geo.volbase + 1 < |u.data| && t == InfoWritten(u, w, ok)
  }

  ghost predicate InfoTried(s: State, t: State, w: Sector) {
    InfoStored(s, t, w, true) || (InfoStored(s, t, w, false) && !s.reliable)
  }

  // sync_fs has FSINFO to write.
  predicate InfoIsDue(g: Geometry, flag: byte) {
    g.fsType == FAT32 && flag == 1
  }

  // A sector that reads as FSINFO: the signatures, the number of free clusters, the last one allocated,
  // and zeros.
  predicate SpellsInfo(w: Sector, freeClust: u32, lastClust: u32) {
    && LdWord(w, 510) == 0xAA55
    && LdDword(w, 0) == 0x4161_5252 && LdDword(w, 484) == 0x6141_7272
    && LdDword(w, 488) == freeClust && LdDword(w, 492) == lastClust
    && forall j :: 0 <= j < SS && !(j < 4 || 484 <= j < 496 || 510 <= j) ==> w[j] == 0
  }

  lemma InfoSpells(freeClust: u32, lastClust: u32)
    ensures SpellsInfo(FsInfoSector(freeClust, lastClust), freeClust, lastClust)
  {
    hide LdDword, StDword, StWord, FsInfoSector;
    InfoNumbers(freeClust, lastClust);
    var w := FsInfoSector(freeClust, lastClust);
    forall j | 0 <= j < SS && !(j < 4 || 484 <= j < 496)
      ensures w[j] == if j == 510 then 0x55 else if j == 511 then 0xAA else 0
    {
      InfoByte(freeClust, lastClust, j);
    }
  }

  lemma InfoNumbers(freeClust: u32, lastClust: u32)
    ensures var w := FsInfoSector(freeClust, lastClust);
      && LdDword(w, 0) == 0x4161_5252 && LdDword(w, 484) == 0x6141_7272
      && LdDword(w, 488) == freeClust && LdDword(w, 492) == lastClust
  {
    hide LdDword, StDword, StWord;
    var w0 := StWord(ZeroSector(), 510, 0xAA55);
    var w1 := StDword(w0, 0, 0x4161_5252);
    var w2 := StDword(w1, 484, 0x6141_7272);
    var w3 := StDword(w2, 488, freeClust);
    LdOfSt(w0, 0, 0x4161_5252);
    LdElsewhere(w1, 484, 0x6141_7272, 0);
    LdElsewhere(w2, 488, freeClust, 0);
    LdElsewhere(w3, 492, lastClust, 0);
    LdOfSt(w1, 484, 0x6141_7272);
    LdElsewhere(w2, 488, freeClust, 484);
    LdElsewhere(w3, 492, lastClust, 484);
    LdOfSt(w2, 488, freeClust);
    LdElsewhere(w3, 492, lastClust, 488);
    LdOfSt(w3, 492, lastClust);
  }

  lemma InfoByte(freeClust: u32, lastClust: u32, j: nat)
    requires j < SS && !(j < 4 || 484 <= j < 496)
    ensures FsInfoSector(freeClust, lastClust)[j] == if j == 510 then 0x55 else if j == 511 then 0xAA else 0
  {
    hide StDword, StWord;
    var w0 := StWord(ZeroSector(), 510, 0xAA55);
    var w1 := StDword(w0, 0, 0x4161_5252);
    var w2 := StDword(w1, 484, 0x6141_7272);
    var w3 := StDword(w2, 488, freeClust);
    SignatureByte(j);
    KeptByte(w0, 0, 0x4161_5252, j);
    KeptByte(w1, 484, 0x6141_7272, j);
    KeptByte(w2, 488, freeClust, j);
    KeptByte(w3, 492, lastClust, j);
  }

  lemma SignatureByte(j: nat)
    requires j < SS
    ensures StWord(ZeroSector(), 510, 0xAA55)[j] == if j == 510 then 0x55 else if j == 511 then 0xAA else 0
  {
  }

  // From s to t no sector has changed but in writing the window back, and in writing FSINFO when due.
  ghost predicate OnlyInfo(s: State, t: State, due: bool) {
    && |t.data| == |s.data|
    && forall i :: 0 <= i < |s.data| && !(due && i == s.geo.volbase + 1) ==> OnlyWindow(s, t, i)
  }

  lemma WindowOnly(s: State, t: State, due: bool)
    requires WrittenBack(s, t)
    ensures OnlyInfo(s, t, due)
  {
  }

  lemma InfoOnly(s: State, t: State, w: Sector, ok: bool)
    requires WrittenBack(s, t) && t.geo == s.geo && t.geo.volbase + 1 < |t.data|
    ensures OnlyInfo(s, InfoWritten(t, w, ok), true)
  {
    var u := InfoWritten(t, w, ok);
    forall i | 0 <= i < |s.data| && i != s.geo.volbase + 1
      ensures OnlyWindow(s, u, i)
    {
      assert OnlyWindow(s, t, i);
    }
  }

  // sync_fs. When it is due it writes FSINFO, with the counters as they are, and clears the flag. Else it
  // changes nothing but the window. The volume stays as it is, unless FSINFO goes to where the FAT is.
  method SyncFs(fs: Fatfs) returns (res: FResult)
    requires fs.Valid()
    modifies fs`wflag, fs`winsect, fs`fsiFlag, fs.win, fs.disk
    ensures res == Ok || (res == DiskErr && !fs.disk.reliable)
    ensures res == Ok ==> !fs.wflag && fs.disk.settled == |fs.disk.history|
    ensures !(InfoIsInFat(fs.geo) && old(fs.fsiFlag) == 1) ==> fs.Valid() && Quiet(old(fs.Now()), fs.Now())
    ensures fs.win.Length == SS
    ensures InfoIsDue(fs.geo, old(fs.fsiFlag)) ==>
      if fs.fsiFlag == 0
      then fs.winsect == fs.geo.volbase + 1 && SpellsInfo(fs.win[..], fs.freeClust, fs.lastClust)
      else fs.fsiFlag == 1 && fs.Now() == old(fs.Now()) && !fs.disk.reliable
    ensures InfoIsDue(fs.geo, old(fs.fsiFlag)) && fs.disk.reliable ==>
      && fs.fsiFlag == 0 && fs.geo.volbase + 1 < |fs.disk.data|
      && SpellsInfo(fs.disk.data[fs.geo.volbase + 1], fs.freeClust, fs.lastClust)
    ensures !InfoIsDue(fs.geo, old(fs.fsiFlag)) ==>
      fs.fsiFlag == old(fs.fsiFlag) && fs.winsect == old(fs.winsect) && fs.win[..] == old(fs.win[..])
    ensures OnlyInfo(old(fs.Now()), fs.Now(), InfoIsDue(fs.geo, old(fs.fsiFlag)))
    ensures InfoIsInFat(fs.geo) && old(fs.fsiFlag) == 1 ==>
      if fs.fsiFlag == 1 then fs.Valid() && Quiet(old(fs.Now()), fs.Now()) && res == DiskErr
      else InfoTried(old(fs.Now()), fs.Now(), FsInfoSector(fs.freeClust, fs.lastClust))
  {
    hide Undisturbed, Reached, Logical, FsInfoSector, SpellsInfo, WrittenBack, OnlyInfo;
    ghost var s := fs.Now();
    res := SyncWindow(fs);
    WindowOnly(s, fs.Now(), InfoIsDue(fs.geo, fs.fsiFlag));
    if res == Ok {
      if fs.geo.fsType == FAT32 && fs.fsiFlag == 1 {
        AreasInOrder(fs.geo);
        ghost var t := fs.Now();
        var w := FsInfoSector(fs.freeClust, fs.lastClust);
        InfoSpells(fs.freeClust, fs.lastClust);
        forall i | 0 <= i < SS {
          fs.win[i] := w[i];
        }
        assert fs.win[..] == w;
        fs.winsect := InfoSector(fs.geo);
        var ok := fs.disk.Write(fs.win, fs.winsect);
        fs.fsiFlag := 0;
        assert fs.Now() == InfoWritten(t, w, ok);
        InfoOnly(s, t, w, ok);
        if InfoIsInFat(fs.geo) {
          assert InfoStored(s, fs.Now(), w, ok);
        } else {
          InfoIsQuiet(t, w, ok);
          QuietCompose(s, t, fs.Now());
        }
      }
      var ok := fs.disk.Sync();
      if !ok {
        res := DiskErr;
      }
    }
  }

  // A volume that is synchronized when FSINFO is due, and mounted again, has the counters it had. boot is
  // its boot sector, which says that there is an FSINFO sector.
  method SyncAndMount(fs: Fatfs, boot: Sector) returns (c: Counters)
    requires fs.Valid() && fs.disk.reliable && InfoIsDue(fs.geo, fs.fsiFlag) && LdWord(boot, 48) == 1
    modifies fs`wflag, fs`winsect, fs`fsiFlag, fs.win, fs.disk
    ensures c.last == fs.lastClust && c.free == fs.freeClust && c.flag == 0
  {
    hide LdWord, LdDword, OnlyInfo, InfoIsInFat, InfoTried, Undisturbed;
    var res := SyncFs(fs);
    var win := new byte[SS](i requires 0 <= i < SS => boot[i]);
    assert win[..] == boot;
    var bsect := InfoSector(fs.geo) - 1;
    SmallWrap(bsect + 1);
    c := Mount.LoadCounters(fs.disk, win, FAT32, bsect);
  }

  function InfoSector(g: Geometry): u32
    requires g.volbase + 1 <= g.fatbase
  {
    AreasInOrder(g);
    g.volbase + 1
  }

  // FSINFO written over the FAT: what the volume is afterwards, and that it is as before exactly when
  // the sector was not written or was the same already. A window with a sector that the device did
  // not take shows something that is not on the disk.
  lemma InfoInFatIsExact(s: State, t: State, w: Sector, ok: bool)
    requires Sound(s) && InfoIsInFat(s.geo) && InfoStored(s, t, w, ok)
    ensures s.geo.fatbase < |s.data| == |t.data| && t.geo == s.geo
    ensures Logical(t) == if ok then Logical(s)[s.geo.fatbase := w] else Logical(s)
    ensures Logical(t) == Logical(s) <==> !ok || Logical(s)[s.geo.fatbase] == w
    ensures Sound(t) <==> ok || Logical(s)[s.geo.fatbase] == w
  {
    hide Reached;
    var u :| Quiet(s, u) && !u.wflag && u.geo.volbase + 1 < |u.data| && t == InfoWritten(u, w, ok);
    AreasInOrder(s.geo);
    QuietIsSound(s, u);
    VisibleUpdate(s.geo, u.data, s.geo.fatbase, w);
    assert Logical(u)[s.geo.fatbase] == u.data[s.geo.fatbase];
    assert ok ==> Logical(t)[s.geo.fatbase] == w;
  }

  // The entry that FSINFO makes of cluster c: 0 but for its signatures and the two numbers.
  function InfoEntry(freeClust: u32, lastClust: u32, c: nat): nat {
    if c == 0 then 0x0161_5252
    else if c == 121 then 0x0141_7272
    else if c == 122 then freeClust as nat % 0x1000_0000
    else if c == 123 then lastClust as nat % 0x1000_0000
    else if c == 127 then 0x0A55_0000
    else 0
  }

  lemma BlankDword(c: nat)
    requires c < 128
    ensures LdDword(StWord(ZeroSector(), 510, 0xAA55), 4 * c) == if c == 127 then 0xAA55_0000 else 0
  {
  }

  lemma InfoDwords(freeClust: u32, lastClust: u32, c: nat)
    requires c < 128
    ensures LdDword(FsInfoSector(freeClust, lastClust), 4 * c) % 0x1000_0000 == InfoEntry(freeClust, lastClust, c)
  {
    hide LdDword, StDword, StWord;
    var w0 := StWord(ZeroSector(), 510, 0xAA55);
    var w1 := StDword(w0, 0, 0x4161_5252);
    var w2 := StDword(w1, 484, 0x6141_7272);
    var w3 := StDword(w2, 488, freeClust);
    BlankDword(c);
    DwordOfSt(w0, 0, 0x4161_5252, c);
    DwordOfSt(w1, 121, 0x6141_7272, c);
    DwordOfSt(w2, 122, freeClust, c);
    DwordOfSt(w3, 123, lastClust, c);
  }

  lemma DwordOfSt(p: seq<byte>, d: nat, x: u32, c: nat)
    requires 4 * d + 4 <= |p| && 4 * c + 4 <= |p|
    ensures LdDword(StDword(p, 4 * d, x), 4 * c) == if c == d then x else LdDword(p, 4 * c)
  {
    hide LdDword, StDword;
    if c == d {
      LdOfSt(p, 4 * d, x);
    } else {
      LdElsewhere(p, 4 * d, x, 4 * c);
    }
  }

  // Writing FSINFO over the FAT replaces the entries of the first 128 clusters, whatever they were:
  // all but clusters 121, 122, 123 and 127 become free.
  lemma InfoOverFat(s: State, t: State, freeClust: u32, lastClust: u32, c: nat)
    requires Sound(s) && InfoIsInFat(s.geo) && InfoStored(s, t, FsInfoSector(freeClust, lastClust), true)
    requires c < s.geo.nFatent
    ensures Sound(t) && t.geo == s.geo
    ensures Fat(s.geo, Logical(t))[c] == if c < 128 then InfoEntry(freeClust, lastClust, c) else Fat(s.geo, Logical(s))[c]
  {
    hide FsInfoSector, SoundLayout, Fat, Logical, Sound, InfoStored;
    var w := FsInfoSector(freeClust, lastClust);
    InfoInFatIsExact(s, t, w, true);
    HoldsLogical(s);
    SectorOverFat(s.geo, Logical(s), w, c);
    InfoDwordsOnly(freeClust, lastClust, c);
  }

  lemma HoldsLogical(s: State)
    requires Sound(s)
    ensures Holds(s.geo, Logical(s))
  {
  }

  lemma InfoDwordsOnly(freeClust: u32, lastClust: u32, c: nat)
    ensures c < 128 ==> LdDword(FsInfoSector(freeClust, lastClust), 4 * c) % 0x1000_0000 == InfoEntry(freeClust, lastClust, c)
  {
    if c < 128 {
      InfoDwords(freeClust, lastClust, c);
    }
  }

  // Another first sector of a FAT32 table changes the first 128 entries.
  lemma SectorOverFat(g: Geometry, v: Image, w: Sector, c: nat)
    requires Holds(g, v) && g.fsType == FAT32 && g.fatbase < |v| && c < g.nFatent
    ensures Fat(g, v[g.fatbase := w])[c] == if c < 128 then LdDword(w, 4 * c) % 0x1000_0000 else Fat(g, v)[c]
  {
    hide SoundLayout, Fat, Table;
    AreasInOrder(g);
    EntryInTable(g, c);
    var v' := v[g.fatbase := w];
    var p, q := Table(g, v)[4 * c..4 * c + 4], Table(g, v')[4 * c..4 * c + 4];
    EntryFromBytes(g, v, c, p);
    EntryFromBytes(g, v', c, q);
    forall k | 0 <= k < 4
      ensures q[k] == if c < 128 then w[4 * c + k] else p[k]
    {
      ByteOverFat(g, v, w, 4 * c + k);
    }
  }

  lemma ByteOverFat(g: Geometry, v: Image, w: Sector, i: nat)
    requires Holds(g, v) && g.fatbase < |v| && i < g.fsize * SS
    ensures Table(g, v[g.fatbase := w])[i] == if i < SS then w[i] else Table(g, v)[i]
  {
    AreasInOrder(g);
  }
}
