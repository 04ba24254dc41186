// f_write on the file object.
module FileStores {
  import opened Words
  import opened Volume
  import opened FatTable
  import opened Arith
  import opened Chains
  import opened DirTable
  import opened FileModel
  import opened FileSteps
  import opened FileReads
  import opened FileWrites
  import opened FileRoom
  import opened Allocation

  // Some FAT entry is 1, which stands for nothing.
  ghost predicate HasBadEntry(g: Geometry, v: Image)
    requires Holds(g, v)
  {
    exists c :: IsCluster(Fat(g, v), c) && Fat(g, v)[c] == 1
  }

  // The file's bytes are as before; its chain may be longer.
  ghost predicate Stretched(s: State, f: FileState, n: nat, t: State, e: FileState) {
    Change(s, f, n, t, e, n, 0, [])
  }

  lemma StretchedThen(s: State, f: FileState, n: nat, t: State, e: FileState, u: State, h: FileState, m: nat, at: nat, d: seq<byte>)
    requires Stretched(s, f, n, t, e) && Change(t, e, n, u, h, m, at, d)
    ensures Change(s, f, n, u, h, m, at, d)
  {
    hide Mirrored, Grown, Bytes, Meant;
    assert Splice(Bytes(s, f, n), 0, []) == Bytes(s, f, n);
    GrownCompose(s.geo, Meant(s, f), f.chain, Meant(t, e), e.chain, Meant(u, h), h.chain);
  }

  lemma StretchedIsCore(s: State, f: FileState, n: nat, t: State, e: FileState)
    requires Stretched(s, f, n, t, e)
    ensures FileCore(t, e, n) && Sound(t) && t.geo == s.geo && f.chain <= e.chain && FileCore(s, f, n)
  {
    hide Mirrored, Bytes, Meant, Splice;
  }

  lemma SameIsStretched(s: State, f: FileState, n: nat, t: State, e: FileState)
    requires FileCore(s, f, n) && SameFile(s, f, n, t, e)
    ensures Stretched(s, f, n, t, e)
  {
    SameIsChange(s, f, n, t, e, 0);
  }

  lemma StretchedElsewhere(s: State, f: FileState, n: nat, t: State, e: FileState, h: FileState)
    requires Stretched(s, f, n, t, e) && Alike(e, h)
    ensures Stretched(s, f, n, t, h)
  {
    ChangeElsewhere(s, f, n, t, e, n, 0, [], h);
  }

  // What create_chain does for a file, asked for the cluster after number i of its chain, or for
  // the first one.
  lemma CreatedNext(s: State, f: FileState, n: nat, t: State, i: nat, scl: nat, r: nat)
    requires FileCore(s, f, n) && i < |f.chain| && Created(s, t, f.chain[i], scl, r)
    requires r != ALL_ONES ==> t.winsect == s.winsect || t.winsect == ALL_ONES || InFat(s.geo, t.winsect)
    ensures r == ALL_ONES ==> !s.reliable
    ensures r == 1 ==> HasBadEntry(s.geo, Logical(s)) && i + 1 == |f.chain|
    ensures r == 1 ==> Sound(t) && t.geo == s.geo && IsBlocked(Fat(t.geo, Logical(t)), scl)
    ensures r == 0 ==> SameFile(s, f, n, t, f) && IsFull(s.geo, Logical(t)) && i + 1 == |f.chain|
    ensures Counts(s, f.chain[i], r) <==> 1 < r < ALL_ONES && i + 1 == |f.chain|
    ensures 1 < r < ALL_ONES && i + 1 < |f.chain| ==> r == f.chain[i + 1] && SameFile(s, f, n, t, f)
    ensures 1 < r < ALL_ONES && i + 1 == |f.chain| ==> Took(s, f, t, r)
  {
    hide Fat, Logical, Taken, TakingViews, Sect, InChain, IsChain, Covers, Mirrored, IsFileSector, FileCore, SameFile, Taking,
         Chosen, Undisturbed, Took, IsBlocked;
    CoreIsSound(s, f, n);
    ChainIsLinked(s, f, n, i);
    if i + 1 < |f.chain| {
      ChainIsLinked(s, f, n, i + 1);
    }
    SmallTable(s.geo);
    if Quiet(s, t) && r != ALL_ONES {
      QuietIsSound(s, t);
      FollowedIsSame(s, f, n, t, f);
    }
    if r == 1 {
      BlockedIsBad(s.geo, Logical(s), scl);
    }
    if 1 < r < ALL_ONES && i + 1 == |f.chain| {
      ChosenIsCluster(s, f.chain[i], scl, r);
      TakingIsTook(s, f, n, t, scl, r);
    }
  }

  lemma BlockedIsBad(g: Geometry, v: Image, scl: nat)
    requires Holds(g, v)
    ensures IsBlocked(Fat(g, v), scl) ==> HasBadEntry(g, v)
  {
    hide Fat;
    if n: int :| BlocksAt(Fat(g, v), scl, n) {
      assert IsCluster(Fat(g, v), n) && Fat(g, v)[n] == 1;
    }
  }

  lemma ChosenIsCluster(s: State, clst: nat, scl: nat, r: nat)
    requires Sound(s)
    ensures Chosen(Fat(s.geo, Logical(s)), scl, r) ==> 1 < r < s.geo.nFatent
  {
  }

  lemma CreatedFirst(s: State, f: FileState, n: nat, t: State, scl: nat, r: nat)
    requires FileCore(s, f, n) && f.chain == [] && Created(s, t, 0, scl, r)
    requires r != ALL_ONES ==> t.winsect == s.winsect || t.winsect == ALL_ONES || InFat(s.geo, t.winsect)
    ensures r == ALL_ONES ==> !s.reliable
    ensures r == 1 ==> HasBadEntry(s.geo, Logical(s))
    ensures r == 1 ==> Sound(t) && t.geo == s.geo && IsBlocked(Fat(t.geo, Logical(t)), scl)
    ensures r == 0 ==> SameFile(s, f, n, t, f) && IsFull(s.geo, Logical(t))
    ensures 1 < r < ALL_ONES ==> Took(s, f, t, r)
    ensures Counts(s, 0, r) <==> 1 < r < ALL_ONES
  {
    hide Fat, Logical, Taken, TakingViews, Sect, InChain, IsChain, Covers, Mirrored, IsFileSector, FileCore, SameFile, Taking,
         Chosen, Undisturbed, Took, IsBlocked;
    CoreIsSound(s, f, n);
    SmallTable(s.geo);
    if Quiet(s, t) && r != ALL_ONES {
      QuietIsSound(s, t);
      FollowedIsSame(s, f, n, t, f);
    }
    if r == 1 {
      BlockedIsBad(s.geo, Logical(s), scl);
    }
    if 1 < r < ALL_ONES {
      ChosenIsCluster(s, 0, scl, r);
      TakingIsTook(s, f, n, t, scl, r);
    }
  }

  // create_chain for a file without clusters.
  method TakeFirst(fp: Fil, ghost n: nat) returns (ncl: u32)
    requires fp.Ready() && FileCore(fp.fs.Now(), fp.At(), n) && fp.chain == [] && fp.sclust == 0
    modifies fp`chain, fp`sclust, fp.fs`wflag, fp.fs`winsect, fp.fs`lastClust, fp.fs`freeClust, fp.fs`fsiFlag, fp.fs.win, fp.fs.disk
    ensures fp.Ready()
    ensures ncl == ALL_ONES ==> !fp.fs.disk.reliable
    ensures ncl == 1 ==> HasBadEntry(fp.fs.geo, old(fp.fs.View()))
    ensures ncl == 0 ==> IsFull(fp.fs.geo, fp.fs.View())
    ensures ncl <= 1 || ncl == ALL_ONES ==> fp.At() == old(fp.At())
    ensures Tracked(old(fp.chain), old(fp.fs.Kept()), fp.chain, fp.fs.Kept())
    ensures ncl == 1 ==> IsStuck(fp.fs.Now(), fp.chain, fp.fs.lastClust)
    ensures ncl != 1 && ncl != ALL_ONES ==> Stretched(old(fp.fs.Now()), old(fp.At()), n, fp.fs.Now(), fp.At())
    ensures 1 < ncl < ALL_ONES ==> fp.chain == [ncl] && fp.sclust == ncl
  {
    hide Fat, Logical, Created, Counts, FileCore, SameFile, Took, HasBadEntry, IsFull, Stretched, Tracked, Noted, IsBlocked;
    ghost var s, f, c := fp.fs.Now(), fp.At(), fp.fs.Kept();
    TrackedRefl(f.chain, c);
    ncl := CreateChain(fp.fs, 0);
    CreatedFirst(s, f, n, fp.fs.Now(), ScanStart(0, old(fp.fs.lastClust), fp.fs.geo.nFatent), ncl);
    if ncl == 0 {
      SameIsStretched(s, f, n, fp.fs.Now(), f);
    } else if ncl != 1 && ncl != ALL_ONES {
      fp.sclust := ncl;
      TrackedOne(f.chain, c, ncl);
      fp.chain := fp.chain + [ncl];
      TookIsStretched(s, f, n, fp.fs.Now(), ncl);
    }
  }

  lemma TookIsStretched(s: State, f: FileState, n: nat, t: State, r: nat)
    requires FileCore(s, f, n) && Took(s, f, t, r)
    ensures Stretched(s, f, n, t, Longer(f, r))
  {
    TookIsChange(s, f, n, t, r, 0);
  }

  // create_chain for the cluster after number i of the chain.
  method NextCluster(fp: Fil, clst: u32, ghost i: nat, ghost n: nat) returns (ncl: u32)
    requires fp.Ready() && FileCore(fp.fs.Now(), fp.At(), n) && i < |fp.chain| && clst == fp.chain[i]
    modifies fp`chain, fp.fs`wflag, fp.fs`winsect, fp.fs`lastClust, fp.fs`freeClust, fp.fs`fsiFlag, fp.fs.win, fp.fs.disk
    ensures fp.Ready()
    ensures ncl == ALL_ONES ==> !fp.fs.disk.reliable
    ensures ncl == 1 ==> HasBadEntry(fp.fs.geo, old(fp.fs.View()))
    ensures ncl == 0 ==> IsFull(fp.fs.geo, fp.fs.View())
    ensures ncl <= 1 ==> i + 1 == |fp.chain|
    ensures ncl <= 1 || ncl == ALL_ONES ==> fp.At() == old(fp.At())
    ensures Tracked(old(fp.chain), old(fp.fs.Kept()), fp.chain, fp.fs.Kept())
    ensures ncl == 1 ==> IsStuck(fp.fs.Now(), fp.chain, fp.fs.lastClust)
    ensures ncl != 1 && ncl != ALL_ONES ==> Stretched(old(fp.fs.Now()), old(fp.At()), n, fp.fs.Now(), fp.At())
    ensures 1 < ncl < ALL_ONES ==>
      i + 1 < |fp.chain| && fp.chain[i + 1] == ncl && |fp.chain| == Max(|old(fp.chain)|, i + 2)
  {
    hide Fat, Logical, Created, Counts, FileCore, SameFile, Took, HasBadEntry, IsFull, Stretched, Tracked, Noted, IsBlocked;
    ghost var s, f, c := fp.fs.Now(), fp.At(), fp.fs.Kept();
    TrackedRefl(f.chain, c);
    ncl := CreateChain(fp.fs, clst);
    CreatedNext(s, f, n, fp.fs.Now(), i, ScanStart(clst, old(fp.fs.lastClust), fp.fs.geo.nFatent), ncl);
    if ncl != 1 && ncl != ALL_ONES {
      if ncl != 0 && i + 1 == |fp.chain| {
        TrackedOne(f.chain, c, ncl);
        fp.chain := fp.chain + [ncl];
        TookIsStretched(s, f, n, fp.fs.Now(), ncl);
      } else {
        SameIsStretched(s, f, n, fp.fs.Now(), f);
      }
    }
  }

  // The cluster at a sector boundary when writing: follows the chain or stretches it. full says
  // that no cluster could be had.
  method ClusterToWrite(fp: Fil, ghost n: nat) returns (res: FResult, full: bool)
    requires fp.Ready() && FileOk(fp.fs.Now(), fp.At(), n) && fp.fptr as int % SS == 0
    modifies fp`chain, fp`sclust, fp`clust, fp.fs`wflag, fp.fs`winsect, fp.fs`lastClust, fp.fs`freeClust, fp.fs`fsiFlag,
             fp.fs.win, fp.fs.disk
    ensures fp.Ready()
    ensures res == Ok || (res == DiskErr && !fp.fs.disk.reliable) || (res == IntErr && HasBadEntry(fp.fs.geo, old(fp.fs.View())))
    ensures res == Ok ==> Stretched(old(fp.fs.Now()), old(fp.At()), n, fp.fs.Now(), fp.At())
    ensures res == Ok && full ==> IsFull(fp.fs.geo, fp.fs.View()) && InPosition(fp.fs.geo, fp.At())
    ensures res == Ok && !full ==> HasCluster(fp.fs.geo, fp.At())
    ensures res == IntErr || (res == Ok && full) ==> AtEnd(fp.fs.geo, fp.At()) && fp.chain == old(fp.chain)
    ensures res == Ok && !full ==> |fp.chain| == Max(|old(fp.chain)|, ClusterIndex(fp.fs.geo, fp.fptr as int / SS) + 1)
    ensures Tracked(old(fp.chain), old(fp.fs.Kept()), fp.chain, fp.fs.Kept())
    ensures res == IntErr ==> IsStuck(fp.fs.Now(), fp.chain, fp.fs.lastClust)
  {
    hide Fat, Logical, SoundLayout, FileCore, HasBadEntry, IsFull, Stretched, Sect, InPosition, Tracked, IsStuck, ClusterStart,
         ClustersFor;
    ghost var s, f := fp.fs.Now(), fp.At();
    AreasInOrder(fp.fs.geo);
    TrackedRefl(f.chain, fp.fs.Kept());
    res, full := Ok, false;
    if SectorIndex(fp.fs.geo, fp.fptr as int / SS) == 0 {
      var clst := fp.sclust;
      StartOfChain(s, f, n);
      BoundaryStart(fp.fs.geo, fp.fptr);
      if fp.fptr == 0 {
        AtTop(fp.fs.geo);
        if clst == 0 {
          clst := TakeFirst(fp, n);
        } else {
          SameRefl(s, f, n, f);
          SameIsStretched(s, f, n, s, f);
        }
      } else {
        AtClusterBoundary(fp.fs.geo, f);
        clst := NextCluster(fp, fp.clust, ClusterIndex(fp.fs.geo, fp.fptr as int / SS) - 1, n);
      }
      if clst == 0 {
        full := true;
      } else if clst == 1 {
        res := IntErr;
      } else if clst == ALL_ONES {
        res := DiskErr;
      } else {
        ghost var t, e := fp.fs.Now(), fp.At();
        fp.clust := clst;
        StretchedElsewhere(s, f, n, t, e, fp.At());
      }
    } else {
      SameRefl(s, f, n, f);
      SameIsStretched(s, f, n, s, f);
      InsideCluster(fp.fs.geo, f);
    }
  }

  lemma AtTop(g: Geometry)
    ensures ClusterIndex(g, 0) == 0 && SectorIndex(g, 0) == 0
  {
    IndicesAre(g, 0, 0, 0);
  }

  lemma StartOfChain(s: State, f: FileState, n: nat)
    requires FileCore(s, f, n)
    ensures f.sclust == 0 <==> f.chain == []
    ensures f.chain != [] ==> f.sclust == f.chain[0] && 2 <= f.sclust < ALL_ONES
  {
    hide Fat, Logical, IsFileSector, SoundLayout;
    SmallTable(s.geo);
  }

  // ----- bytes through the buffer

  // e is f with the buffer brought to the sector of the position, whose contents it has unless the
  // file ends here.
  ghost predicate Fillable(s: State, f: FileState, n: nat, e: FileState) {
    && HasCluster(s.geo, f)
    && var i := Sect(s.geo, f.chain, f.fptr / SS);
      && e == f.(dsect := i, buf := e.buf) && (f.dirty ==> f.dsect == i)
      && i < |s.data| && (e.buf == Meant(s, f)[i] || (f.fptr % SS == 0 && f.fptr >= n))
  }

  // Puts up to btw bytes from offset at of buff into the buffer.
  method PutBuffered(fp: Fil, buff: array<byte>, at: nat, btw: u32, ghost f: FileState, ghost n: nat) returns (wcnt: u32)
    requires fp.Ready() && FileCore(fp.fs.Now(), f, n) && f.fptr <= n && Fillable(fp.fs.Now(), f, n, fp.At())
    requires buff != fp.buf && 0 < btw && at + btw <= buff.Length && fp.fptr + btw < 0x1_0000_0000
    modifies fp`dirty, fp.buf
    ensures fp.Ready() && 0 < wcnt <= btw && wcnt == Min(btw, SS - fp.fptr % SS)
    ensures Change(fp.fs.Now(), f, n, fp.fs.Now(), fp.At(), Max(n, f.fptr + wcnt), f.fptr, buff[at..at + wcnt])
    ensures InPosition(fp.fs.geo, fp.At().(fptr := fp.fptr + wcnt))
  {
    hide FileCore, Logical, Sect, InChain, Change, Meant;
    ghost var s := fp.fs.Now();
    wcnt := SS - fp.fptr as int % SS;
    if wcnt > btw {
      wcnt := btw;
    }
    var off: nat := fp.fptr as int % SS;
    ghost var a := fp.buf[..];
    forall j | 0 <= j < wcnt {
      fp.buf[off + j] := buff[at + j];
    }
    fp.dirty := true;
    ghost var d := buff[at..at + wcnt];
    BufferMerged(Meant(s, f)[Sect(fp.fs.geo, f.chain, f.fptr / SS)], a, fp.buf[..], f.fptr, n, d);
    BufferSplices(s, f, n, fp.buf[..], d);
    AfterBytes(fp.fs.geo, fp.At(), wcnt);
  }

  lemma BufferMerged(x: Sector, a: Sector, b: Sector, at: nat, n: nat, d: seq<byte>)
    requires a == x || (at % SS == 0 && at >= n)
    requires at % SS + |d| <= SS
    requires forall j :: 0 <= j < SS ==> b[j] == if at % SS <= j < at % SS + |d| then d[j - at % SS] else a[j]
    ensures Merged(x, b, at, n, d)
  {
  }

  // Brings the buffer to the sector of the position, to be filled: its contents are loaded unless
  // the file ends there.
  method SectorToFill(fp: Fil, sect: u32, ghost n: nat) returns (res: FResult)
    requires fp.Ready() && FileCore(fp.fs.Now(), fp.At(), n) && !fp.dirty && HasCluster(fp.fs.geo, fp.At())
    requires sect == Sect(fp.fs.geo, fp.chain, fp.fptr as int / SS) && fp.fptr as int % SS == 0 && n == Max(fp.fsize, fp.fptr)
    modifies fp`dsect, fp.buf
    ensures fp.Ready() && (res == Ok || (res == DiskErr && !fp.fs.disk.reliable))
    ensures res == Ok ==> Fillable(fp.fs.Now(), old(fp.At()), n, fp.At())
  {
    hide FileCore, Logical, Sect, InChain, IsFileSector, SoundLayout, HasCluster, Meant;
    ghost var s, f := fp.fs.Now(), fp.At();
    res := Ok;
    ClusterInChain(fp.fs.geo, f);
    SectorOfFile(s, f, n, fp.fptr as int / SS);
    if fp.dsect != sect {
      if fp.fptr < fp.fsize {
        var ok := fp.fs.disk.Read(fp.buf, sect);
        if !ok {
          return DiskErr;
        }
      }
    }
    fp.dsect := sect;
  }

  lemma ClusterInChain(g: Geometry, f: FileState)
    requires HasCluster(g, f)
    ensures InChain(g, f.chain, f.fptr / SS)
  {
  }

  // Writes c sectors of a cluster straight to the disk.
  method StoreRun(fp: Fil, buff: array<byte>, at: nat, sect: u32, c: nat, ghost n: nat) returns (res: FResult)
    requires fp.Ready() && FileCore(fp.fs.Now(), fp.At(), n) && HasCluster(fp.fs.geo, fp.At())
    requires sect == Sect(fp.fs.geo, fp.chain, fp.fptr as int / SS)
    requires c > 0 && SectorIndex(fp.fs.geo, fp.fptr as int / SS) + c <= fp.fs.geo.csize && at + c * SS <= buff.Length
    modifies fp.fs.disk
    ensures fp.Ready() && (res == Ok || (res == DiskErr && !fp.fs.disk.reliable))
    ensures sect + c < ALL_ONES
    ensures res == Ok ==> Wrote(old(fp.fs.Now()), fp.fs.Now(), sect, buff[at..at + c * SS], c)
  {
    hide FileCore, Logical, Sect, InChain, IsFileSector, SoundLayout, Sound, Written;
    ghost var s, f := fp.fs.Now(), fp.At();
    RunIsFile(s, f, n, fp.fptr as int / SS, c);
    SizeOf(s, f, n);
    var ok, done := fp.fs.disk.WriteRun(buff, at, sect, c);
    PartOfRun(s, fp.fs.Now(), sect, buff[at..at + c * SS], done);
    res := if ok then Ok else DiskErr;
  }

  // Has the buffer take over its sector from a run that has been written.
  method Refill(fp: Fil, buff: array<byte>, at: nat, sect: u32, c: nat)
    requires fp.buf.Length == SS && buff != fp.buf && at + c * SS <= buff.Length && sect + c < ALL_ONES
    modifies fp`dirty, fp.buf
    ensures fp.At() == Refilled(old(fp.At()), sect, buff[at..at + c * SS], c)
  {
    WrapRange(fp.dsect, sect, c);
    assert buff[..][at..at + c * SS] == buff[at..at + c * SS];
    if Wrap32(fp.dsect - sect) < c {
      var k: nat := fp.dsect - sect;
      forall j | 0 <= j < SS {
        fp.buf[j] := buff[at + k * SS + j];
      }
      fp.dirty := false;
      assert fp.buf[..] == buff[..][at + k * SS..at + k * SS + SS];
      SectorOfPiece(buff[..], at, c, k);
    }
  }

  lemma SliceOfSlice(b: seq<byte>, i: nat, j: nat, k: nat, l: nat)
    requires i <= j <= |b| && k <= l <= j - i
    ensures b[i..j][k..l] == b[i + k..i + l]
  {
    assert forall m :: 0 <= m < l - k ==> b[i..j][k..l][m] == b[i + k + m];
  }

  lemma SectorOfPiece(b: seq<byte>, at: nat, c: nat, k: nat)
    requires at + c * SS <= |b| && k < c
    ensures b[at..at + c * SS][k * SS..k * SS + SS] == b[at + k * SS..at + k * SS + SS]
  {
    SliceOfSlice(b, at, at + c * SS, k * SS, k * SS + SS);
  }

  method WriteDirect(fp: Fil, buff: array<byte>, at: nat, sect: u32, c: nat, ghost n: nat) returns (res: FResult)
    requires fp.Ready() && FileCore(fp.fs.Now(), fp.At(), n) && !fp.dirty && buff != fp.buf
    requires HasCluster(fp.fs.geo, fp.At()) && fp.fptr as int % SS == 0 && fp.fptr <= n
    requires sect == Sect(fp.fs.geo, fp.chain, fp.fptr as int / SS)
    requires c > 0 && SectorIndex(fp.fs.geo, fp.fptr as int / SS) + c <= fp.fs.geo.csize && at + c * SS <= buff.Length
    requires fp.fptr + c * SS < 0x1_0000_0000
    modifies fp`dirty, fp.buf, fp.fs.disk
    ensures fp.Ready() && (res == Ok || (res == DiskErr && !fp.fs.disk.reliable))
    ensures res == Ok ==>
      && Change(old(fp.fs.Now()), old(fp.At()), n, fp.fs.Now(), fp.At(), Max(n, fp.fptr + c * SS), fp.fptr, buff[at..at + c * SS])
      && InPosition(fp.fs.geo, fp.At().(fptr := fp.fptr + c * SS))
  {
    hide FileCore, Logical, Sect, InChain, IsFileSector, SoundLayout, HasCluster, Change, Meant, Sound, InPosition, Wrote,
         Refilled;
    ghost var s, f := fp.fs.Now(), fp.At();
    res := StoreRun(fp, buff, at, sect, c, n);
    if res == Ok {
      Refill(fp, buff, at, sect, c);
      RunSplices(s, f, n, fp.fs.Now(), buff[at..at + c * SS], c);
      CoreHasClusters(s, f, n);
      AfterSectors(fp.fs.geo, f, c);
      RefilledInPosition(fp.fs.geo, f.(fptr := fp.fptr + c * SS), sect, buff[at..at + c * SS], c);
      RefilledMoves(f, sect, buff[at..at + c * SS], c, fp.fptr + c * SS);
    }
  }

  lemma RefilledMoves(f: FileState, i: nat, x: seq<byte>, c: nat, p: nat)
    requires |x| == c * SS
    ensures Refilled(f.(fptr := p), i, x, c) == Refilled(f, i, x, c).(fptr := p)
  {
  }

  lemma RefilledInPosition(g: Geometry, f: FileState, i: nat, x: seq<byte>, c: nat)
    requires InPosition(g, f) && |x| == c * SS
    ensures InPosition(g, Refilled(f, i, x, c))
  {
  }

  lemma SizeOf(s: State, f: FileState, n: nat)
    requires FileCore(s, f, n)
    ensures Sound(s) && |s.data| < ALL_ONES && DataEnd(s.geo) <= |s.data|
  {
  }

  lemma CoreHasClusters(s: State, f: FileState, n: nat)
    requires FileCore(s, f, n)
    ensures AreClusters(s.geo, f.chain)
  {
  }

  // Part of a run may have been written.
  lemma PartOfRun(s: State, t: State, i: nat, x: seq<byte>, n: nat)
    requires Sound(s) && n * SS <= |x| && Wrote(s, t, i, x, n)
    requires s.geo.database <= i && i + n <= |s.data| && !(i <= s.winsect < i + n)
    requires forall k :: i <= k < i + n ==> !IsHidden(s.geo, k)
    ensures Sound(t)
  {
    hide Sound, Logical, Written;
    WrittenIsLogical(s, t, i, x, n);
  }

  // The part of f_write's loop at a sector boundary, once cluster and buffer are settled: writes
  // whole sectors directly (wcnt > 0), or brings the buffer to the sector of the position.
  method WriteAligned(fp: Fil, buff: array<byte>, at: nat, btw: u32, ghost n: nat) returns (res: FResult, wcnt: u32)
    requires fp.Ready() && FileCore(fp.fs.Now(), fp.At(), n) && !fp.dirty && buff != fp.buf
    requires HasCluster(fp.fs.geo, fp.At()) && fp.fptr as int % SS == 0 && n == Max(fp.fsize, fp.fptr)
    requires 0 < btw && at + btw <= buff.Length && fp.fptr + btw < 0x1_0000_0000
    modifies fp`dirty, fp`dsect, fp.buf, fp.fs.disk
    ensures fp.Ready() && wcnt <= btw && (res == Ok || (res == DiskErr && !fp.fs.disk.reliable))
    ensures res == Ok && wcnt == 0 ==>
      fp.fs.Now() == old(fp.fs.Now()) && Fillable(fp.fs.Now(), old(fp.At()), n, fp.At())
    ensures res == Ok && wcnt > 0 ==>
      && Change(old(fp.fs.Now()), old(fp.At()), n, fp.fs.Now(), fp.At(), Max(n, fp.fptr + wcnt), fp.fptr, buff[at..at + wcnt])
      && InPosition(fp.fs.geo, fp.At().(fptr := fp.fptr + wcnt))
  {
    hide FileCore, Logical, Sect, InChain, IsFileSector, SoundLayout, Change, Meant, Sound, InPosition, Fillable, ClustToSect;
    ghost var s, f := fp.fs.Now(), fp.At();
    AreasInOrder(fp.fs.geo);
    AtSector(s, f, n);
    res, wcnt := Ok, 0;
    var sect := ClustToSect(fp.fs.geo, fp.clust);
    if sect == 0 {
      res := IntErr;
    } else {
      var csect: nat := SectorIndex(fp.fs.geo, fp.fptr as int / SS);
      SectorInRange(fp.fs.geo, fp.clust, csect);
      sect := sect + csect;
      var cc: nat := btw as int / SS;
      if cc > 0 {
        if csect + cc > fp.fs.geo.csize {
          cc := fp.fs.geo.csize - csect;
        }
        res := WriteDirect(fp, buff, at, sect, cc, n);
        wcnt := SS * cc;
      } else {
        res := SectorToFill(fp, sect, n);
      }
    }
  }

  lemma BufferIsFillable(s: State, f: FileState, n: nat)
    requires FileCore(s, f, n) && HasBuffer(s.geo, f)
    ensures Fillable(s, f, n, f)
  {
    hide FileCore, Logical, Sect, InChain, IsFileSector, SoundLayout, Meant;
    SectorOfFile(s, f, n, f.fptr / SS);
  }

  lemma StretchedThenSame(s: State, f: FileState, n: nat, t: State, e: FileState, u: State, h: FileState)
    requires Stretched(s, f, n, t, e) && SameFile(t, e, n, u, h)
    ensures Stretched(s, f, n, u, h) && FileCore(u, h, n) && Sound(u) && u.geo == s.geo
  {
    hide Logical, Change, Meant, IsFileSector;
    StretchedIsCore(s, f, n, t, e);
    SameIsChange(t, e, n, u, h, 0);
    StretchedThen(s, f, n, t, e, u, h, n, 0, []);
  }

  // The cluster of the position at a sector boundary, and the buffer written back.
  method ReadyToWrite(fp: Fil, ghost n: nat) returns (res: FResult, full: bool)
    requires fp.Ready() && FileOk(fp.fs.Now(), fp.At(), n) && fp.fptr as int % SS == 0
    modifies fp`chain, fp`sclust, fp`clust, fp`dirty, fp.fs`wflag, fp.fs`winsect, fp.fs`lastClust, fp.fs`freeClust,
             fp.fs`fsiFlag, fp.fs.win, fp.fs.disk
    ensures fp.Ready()
    ensures res == Ok || (res == DiskErr && !fp.fs.disk.reliable) || (res == IntErr && HasBadEntry(fp.fs.geo, old(fp.fs.View())))
    ensures res == Ok ==> Stretched(old(fp.fs.Now()), old(fp.At()), n, fp.fs.Now(), fp.At())
    ensures res == Ok && full ==> IsFull(fp.fs.geo, fp.fs.View()) && InPosition(fp.fs.geo, fp.At())
    ensures res == Ok && !full ==> HasCluster(fp.fs.geo, fp.At()) && !fp.dirty
    ensures res == IntErr || (res == Ok && full) ==> AtEnd(fp.fs.geo, fp.At()) && fp.chain == old(fp.chain)
    ensures res == Ok && !full ==> |fp.chain| == Max(|old(fp.chain)|, ClusterIndex(fp.fs.geo, fp.fptr as int / SS) + 1)
    ensures Tracked(old(fp.chain), old(fp.fs.Kept()), fp.chain, fp.fs.Kept())
    ensures res == IntErr ==> IsStuck(fp.fs.Now(), fp.chain, fp.fs.lastClust)
  {
    hide Tracked, IsStuck, AtEnd, FileCore, Logical, Sect, InChain, SoundLayout, Sound, InPosition, Stretched, HasBadEntry, IsFull, SameFile;
    ghost var s, f := fp.fs.Now(), fp.At();
    res, full := ClusterToWrite(fp, n);
    if res == Ok && !full {
      ghost var u, h := fp.fs.Now(), fp.At();
      StretchedIsCore(s, f, n, u, h);
      res := FlushBuffer(fp, n);
      if res == Ok {
        StretchedThenSame(s, f, n, u, h, fp.fs.Now(), fp.At());
      }
    }
  }

  // One round of f_write's loop: writes wcnt of the btw bytes from offset at of buff on.
  method WriteSome(fp: Fil, buff: array<byte>, at: nat, btw: u32, ghost n: nat) returns (res: FResult, full: bool, wcnt: u32)
    requires fp.Ready() && FileOk(fp.fs.Now(), fp.At(), n) && n == Max(fp.fsize, fp.fptr)
    requires buff != fp.buf && buff != fp.fs.win
    requires 0 < btw && at + btw <= buff.Length && fp.fptr + btw < 0x1_0000_0000
    modifies fp`chain, fp`sclust, fp`clust, fp`dirty, fp`dsect, fp.buf, fp.fs`wflag, fp.fs`winsect, fp.fs`lastClust,
             fp.fs`freeClust, fp.fs`fsiFlag, fp.fs.win, fp.fs.disk
    ensures fp.Ready()
    ensures res == Ok || (res == DiskErr && !fp.fs.disk.reliable) || (res == IntErr && HasBadEntry(fp.fs.geo, old(fp.fs.View())))
    ensures res == Ok && full ==>
      && Stretched(old(fp.fs.Now()), old(fp.At()), n, fp.fs.Now(), fp.At())
      && IsFull(fp.fs.geo, fp.fs.View()) && InPosition(fp.fs.geo, fp.At())
    ensures res == Ok && !full ==>
      && 0 < wcnt <= btw
      && Change(old(fp.fs.Now()), old(fp.At()), n, fp.fs.Now(), fp.At(), Max(n, fp.fptr + wcnt), fp.fptr, buff[at..at + wcnt])
      && InPosition(fp.fs.geo, fp.At().(fptr := fp.fptr + wcnt))
      && GrewTo(fp.fs.geo, old(fp.At()), fp.At(), fp.fptr + wcnt)
    ensures res == IntErr || (res == Ok && full) ==> AtEnd(fp.fs.geo, fp.At()) && fp.chain == old(fp.chain)
    ensures Tracked(old(fp.chain), old(fp.fs.Kept()), fp.chain, fp.fs.Kept())
    ensures res == IntErr ==> IsStuck(fp.fs.Now(), fp.chain, fp.fs.lastClust)
  {
    hide FileCore, Logical, Sect, InChain, IsFileSector, SoundLayout, Change, Meant, Sound, InPosition, Fillable, Stretched,
         HasBuffer, HasBadEntry, IsFull, SameFile, Tracked, IsStuck, AtEnd, GrewTo, ClusterIndex;
    ghost var s, f := fp.fs.Now(), fp.At();
    ghost var t, e := s, f;
    TrackedRefl(f.chain, fp.fs.Kept());
    res, full, wcnt := Ok, false, 0;
    if fp.fptr as int % SS == 0 {
      res, full := ReadyToWrite(fp, n);
      if res == Ok && !full {
        t, e := fp.fs.Now(), fp.At();
        StretchedIsCore(s, f, n, t, e);
        res, wcnt := WriteAligned(fp, buff, at, btw, n);
      }
    } else {
      InsideCluster(fp.fs.geo, f);
      ClusterInChain(fp.fs.geo, f);
      BufferIsFillable(s, f, n);
      SameRefl(s, f, n, f);
      SameIsStretched(s, f, n, s, f);
    }
    if res == Ok && !full {
      if wcnt == 0 {
        wcnt := PutBuffered(fp, buff, at, btw, e, n);
      }
      StretchedThen(s, f, n, t, e, fp.fs.Now(), fp.At(), Max(n, fp.fptr + wcnt), fp.fptr, buff[at..at + wcnt]);
      GrewByOne(t, f, n, e, fp.At(), wcnt);
    }
  }

  // The chain after a round, which has written bytes of one cluster.
  lemma GrewByOne(t: State, f: FileState, n: nat, e: FileState, h: FileState, w: nat)
    requires FileCore(t, e, n) && HasCluster(t.geo, e) && w > 0
    requires |e.chain| == Max(|f.chain|, ClusterIndex(t.geo, e.fptr / SS) + 1)
    requires h.chain == e.chain && h.clust == e.clust && h.fptr == e.fptr && InPosition(t.geo, h.(fptr := h.fptr + w))
    ensures GrewTo(t.geo, f, h, h.fptr + w)
  {
    hide Logical, Sect, InChain, IsFileSector, SoundLayout, ClustersFor, IsChain, Fat, Covers;
    StaysInCluster(t.geo, e, h.(fptr := h.fptr + w), w);
  }

  // The loop of f_write: writes want bytes of buff, or as many as the volume takes. m is the size of
  // the file afterwards.
  method WriteRounds(fp: Fil, buff: array<byte>, want: u32) returns (res: FResult, bw: u32, ghost m: nat)
    requires fp.Ready() && FileOk(fp.fs.Now(), fp.At(), fp.fsize) && buff != fp.buf && buff != fp.fs.win
    requires want <= buff.Length && fp.fptr + want < 0x1_0000_0000
    modifies fp`chain, fp`sclust, fp`clust, fp`dirty, fp`dsect, fp`fptr, fp.buf, fp.fs`wflag, fp.fs`winsect, fp.fs`lastClust,
             fp.fs`freeClust, fp.fs`fsiFlag, fp.fs.win, fp.fs.disk
    ensures fp.Ready() && bw <= want
    ensures res == Ok || (res == DiskErr && !fp.fs.disk.reliable) || (res == IntErr && HasBadEntry(fp.fs.geo, old(fp.fs.View())))
    ensures res == Ok ==>
      && m == Max(fp.fsize, fp.fptr) && FileOk(fp.fs.Now(), fp.At(), m) && fp.fptr == old(fp.fptr) + bw
      && Change(old(fp.fs.Now()), old(fp.At()), fp.fsize, fp.fs.Now(), fp.At(), m, old(fp.fptr), buff[..bw])
      && (bw == want || IsFull(fp.fs.geo, fp.fs.View()))
      && GrewTo(fp.fs.geo, old(fp.At()), fp.At(), fp.fptr)
    ensures fp.fptr == old(fp.fptr) + bw
    ensures res == IntErr || (res == Ok && bw < want) ==> AtEnd(fp.fs.geo, fp.At()) && bw < want
    ensures Tracked(old(fp.chain), old(fp.fs.Kept()), fp.chain, fp.fs.Kept())
    ensures res == IntErr ==> IsStuck(fp.fs.Now(), fp.chain, fp.fs.lastClust)
  {
    hide FileCore, Logical, Sect, InChain, IsFileSector, SoundLayout, Change, Meant, InPosition, Stretched,
         HasBadEntry, IsFull, SameFile, Tracked, IsStuck, AtEnd, GrewTo, ClustersFor, ClusterStart;
    ghost var s, f, n, c := fp.fs.Now(), fp.At(), fp.fsize, fp.fs.Kept();
    TrackedRefl(f.chain, c);
    StartsCovered(s, f, n);
    SameRefl(s, f, n, f);
    SameIsChange(s, f, n, s, f, f.fptr);
    var rest: u32 := want;
    var full := false;
    res, bw, m := Ok, 0, n;
    assert buff[..0] == [];
    while rest > 0 && !full
      invariant fp.Ready() && m == Max(n, fp.fptr) && FileOk(fp.fs.Now(), fp.At(), m)
      invariant 0 <= rest && bw + rest == want && fp.fptr == f.fptr + bw && res == Ok
      invariant Change(s, f, n, fp.fs.Now(), fp.At(), m, f.fptr, buff[..bw])
      invariant full ==> IsFull(fp.fs.geo, fp.fs.View()) && AtEnd(fp.fs.geo, fp.At())
      invariant GrewTo(fp.fs.geo, f, fp.At(), fp.fptr) && Tracked(f.chain, c, fp.chain, fp.fs.Kept())
      decreases rest, if full then 0 else 1
    {
      ghost var t, e, x, k := fp.fs.Now(), fp.At(), buff[..bw], fp.fs.Kept();
      var wcnt;
      res, full, wcnt := WriteSome(fp, buff, bw, rest, m);
      TrackedTwice(f.chain, c, e.chain, k, fp.chain, fp.fs.Kept());
      if res != Ok {
        BadEntryWasThere(s, f, n, t, e, m, f.fptr, x);
        return;
      }
      ghost var u, h := fp.fs.Now(), fp.At();
      if full {
        ThenStretched(s, f, n, t, e, m, u, h, f.fptr, x);
        SameGrowth(fp.fs.geo, f, e, h, e.fptr);
      } else {
        m := Max(m, fp.fptr + wcnt);
        fp.fptr := fp.fptr + wcnt;
        ThenChange(s, f, n, t, e, u, h, fp.At(), m, f.fptr, x, buff[bw..bw + wcnt]);
        GrewTwice(fp.fs.geo, f, e, e.fptr, h, fp.fptr);
        SameGrowth(fp.fs.geo, f, h, fp.At(), fp.fptr);
        assert buff[..bw + wcnt] == x + buff[bw..bw + wcnt];
        bw := bw + wcnt;
        rest := rest - wcnt;
      }
    }
  }

  lemma StartsCovered(s: State, f: FileState, n: nat)
    requires FileOk(s, f, n)
    ensures GrewTo(s.geo, f, f, f.fptr)
  {
    hide FileCore;
    OnClusterIsCovered(s.geo, f);
  }

  lemma SameGrowth(g: Geometry, f: FileState, e: FileState, h: FileState, p: nat)
    requires GrewTo(g, f, e, p) && h.chain == e.chain
    ensures GrewTo(g, f, h, p)
  {
  }

  // Of btw bytes at position p those that f_write sets out to write: none when they would reach 4 GB.
  function Fitting(p: nat, btw: nat): nat {
    if p + btw < 0x1_0000_0000 then btw else 0
  }

  // What has been written is all, or what there was room for; the chain that the file had at first
  // has not been too short in vain.
  lemma TakesWhatFits(s: State, f: FileState, n: nat, t: State, e: FileState, m: nat, x: seq<byte>, w: nat)
    requires Change(s, f, n, t, e, m, f.fptr, x) && FileOk(t, e, m) && e.fptr == f.fptr + |x| && |x| <= w
    requires |x| == w || (IsFull(t.geo, Logical(t)) && AtEnd(t.geo, e))
    ensures |x| == Min(w, Room(s, f.chain) - f.fptr)
  {
    hide FileCore, Logical, Fat, Meant, Bytes, Grown, Mirrored, IsFull, AtEnd, Room, Splice, ClustersFor;
    ClustersAreConserved(s, f, n, t, e, m, f.fptr, x);
    CoreIsSound(t, e, m);
    OnClusterIsCovered(t.geo, e);
    ChainInRoom(t, e, e.fptr);
    if |x| < w {
      FullAtEnd(t, e);
    }
  }

  // At the end of a chain that has only become longer one is past what the chain had at first.
  lemma EndIsBehind(g: Geometry, f: FileState, e: FileState, p: nat)
    requires AtEnd(g, e) && f.chain <= e.chain && e.fptr < p
    ensures p > ClusterStart(g, |f.chain|)
  {
    hide ClusterBytes;
    MulMono(|f.chain|, |e.chain|, ClusterBytes(g));
  }

  // The chain that the file has is part of its room.
  lemma ChainIsRoom(s: State, f: FileState)
    requires Sound(s)
    ensures ClusterStart(s.geo, |f.chain|) <= Room(s, f.chain)
  {
    hide ClusterBytes, Fat, Logical, FreeCount;
    MulMono(|f.chain|, |f.chain| + FreeCount(Fat(s.geo, Logical(s))), ClusterBytes(s.geo));
  }

  lemma TrackedIsLonger(c: seq<nat>, k: Counters, d: seq<nat>, l: Counters)
    requires Tracked(c, k, d, l)
    ensures c <= d
  {
  }

  // f_write: writes up to btw bytes of buff at the position. The bw bytes that it has written are all
  // of them, or as many as the file's clusters and the free ones take; a write past the largest file
  // size does nothing. Clusters are taken only for bytes that the file's chain has no room for.
  method Write(fp: Fil, buff: array<byte>, btw: u32) returns (res: FResult, bw: u32)
    requires fp.Ready() && FileOk(fp.fs.Now(), fp.At(), fp.fsize) && buff != fp.buf && buff != fp.fs.win
    requires btw <= buff.Length
    modifies fp`chain, fp`sclust, fp`clust, fp`dirty, fp`dsect, fp`fptr, fp`fsize, fp`written, fp`err, fp.buf,
             fp.fs`wflag, fp.fs`winsect, fp.fs`lastClust, fp.fs`freeClust, fp.fs`fsiFlag, fp.fs.win, fp.fs.disk
    ensures fp.Ready() && bw <= btw
    ensures old(fp.err) != Ok ==> res == old(fp.err)
    ensures old(fp.err) == Ok && !fp.canWrite ==> res == Denied
    ensures old(fp.err) != Ok || !fp.canWrite ==>
      && bw == 0 && fp.At() == old(fp.At()) && fp.err == old(fp.err) && fp.written == old(fp.written)
      && fp.fs.Now() == old(fp.fs.Now()) && fp.fs.Kept() == old(fp.fs.Kept())
    ensures old(fp.err) == Ok && fp.canWrite ==> res == fp.err && (res == Ok || res == DiskErr || res == IntErr)
    ensures old(fp.err) == Ok && fp.canWrite && res == DiskErr ==> !fp.fs.disk.reliable
    ensures old(fp.err) == Ok && fp.canWrite && res == IntErr ==>
      && HasBadEntry(fp.fs.geo, old(fp.fs.View()))
      && old(fp.fptr) + Fitting(old(fp.fptr), btw) > ClusterStart(fp.fs.geo, |old(fp.chain)|)
    ensures old(fp.err) == Ok && res == Ok ==>
      && FileOk(fp.fs.Now(), fp.At(), fp.fsize) && fp.written
      && Change(old(fp.fs.Now()), old(fp.At()), old(fp.fsize), fp.fs.Now(), fp.At(), fp.fsize, old(fp.fptr), buff[..bw])
      && fp.fptr == old(fp.fptr) + bw
      && bw == Min(Fitting(old(fp.fptr), btw), old(Room(fp.fs.Now(), fp.chain)) - old(fp.fptr))
      && GrewTo(fp.fs.geo, old(fp.At()), fp.At(), fp.fptr)
      && (bw == Fitting(old(fp.fptr), btw) || (IsFull(fp.fs.geo, fp.fs.View()) && AtEnd(fp.fs.geo, fp.At())))
    ensures old(fp.err) == Ok && old(fp.fptr) + Fitting(old(fp.fptr), btw) <= ClusterStart(fp.fs.geo, |old(fp.chain)|) ==>
      res != IntErr && (res == Ok ==> bw == Fitting(old(fp.fptr), btw))
    ensures Tracked(old(fp.chain), old(fp.fs.Kept()), fp.chain, fp.fs.Kept())
    ensures old(fp.err) == Ok && res == IntErr ==> IsStuck(fp.fs.Now(), fp.chain, fp.fs.lastClust)
  {
    hide FileCore, Logical, Sect, InChain, IsFileSector, SoundLayout, Change, Meant, InPosition, Stretched,
         HasBadEntry, IsFull, SameFile, Tracked, IsStuck, AtEnd, GrewTo, Room, ClusterStart;
    ghost var s, f, n := fp.fs.Now(), fp.At(), fp.fsize;
    TrackedRefl(f.chain, fp.fs.Kept());
    bw := 0;
    if fp.err != Ok {
      return fp.err, bw;
    }
    if !fp.canWrite {
      return Denied, bw;
    }
    var rest: u32 := btw;
    if Wrap32(fp.fptr + rest) < fp.fptr {
      rest := 0;
    }
    ghost var m;
    res, bw, m := WriteRounds(fp, buff, rest);
    ghost var u, h := fp.fs.Now(), fp.At();
    if res != Ok {
      fp.err := res;
      if res == IntErr {
        TrackedIsLonger(f.chain, old(fp.fs.Kept()), h.chain, fp.fs.Kept());
        EndIsBehind(fp.fs.geo, f, h, f.fptr + rest);
      }
      return;
    }
    TakesWhatFits(s, f, n, u, h, m, buff[..bw], rest);
    ChainIsRoom(s, f);
    if fp.fptr > fp.fsize {
      fp.fsize := fp.fptr;
    }
    fp.written := true;
    Resized(s, f, n, u, h, fp.At(), m, f.fptr, buff[..bw]);
    AtEndStays(fp.fs.geo, f, h, fp.At());
  }

  lemma AtEndStays(g: Geometry, f: FileState, e: FileState, h: FileState)
    requires h == e.(fsize := h.fsize)
    ensures AtEnd(g, e) ==> AtEnd(g, h)
    ensures GrewTo(g, f, e, e.fptr) ==> GrewTo(g, f, h, h.fptr)
  {
  }

  // One round of the loop after the rounds before.
  lemma ThenChange(s: State, f: FileState, n: nat, t: State, e: FileState, u: State, h: FileState, k: FileState, m: nat,
                   at: nat, x: seq<byte>, y: seq<byte>)
    requires Change(s, f, n, t, e, Max(e.fsize, e.fptr), at, x)
    requires Change(t, e, Max(e.fsize, e.fptr), u, h, m, at + |x|, y)
    requires Alike(h, k) && InPosition(u.geo, k) && k.fptr <= m
    ensures Change(s, f, n, u, k, m, at, x + y) && FileOk(u, k, m)
  {
    hide Logical, Meant, IsFileSector, Bytes, Grown, InPosition, Mirrored;
    ChangeCompose(s, f, n, t, e, Max(e.fsize, e.fptr), u, h, m, at, x, y);
    ChangeElsewhere(s, f, n, u, h, m, at, x + y, k);
  }

  lemma ThenStretched(s: State, f: FileState, n: nat, t: State, e: FileState, m: nat, u: State, h: FileState,
                      at: nat, x: seq<byte>)
    requires Change(s, f, n, t, e, m, at, x) && Stretched(t, e, m, u, h) && InPosition(u.geo, h) && h.fptr <= m
    ensures Change(s, f, n, u, h, m, at, x) && FileOk(u, h, m)
  {
    hide Logical, Meant, IsFileSector, Grown, InPosition, Mirrored, Bytes;
    assert Splice(Bytes(t, e, m), 0, []) == Bytes(t, e, m);
    GrownCompose(s.geo, Meant(s, f), f.chain, Meant(t, e), e.chain, Meant(u, h), h.chain);
  }

  // Updating the size at the end.
  lemma Resized(s: State, f: FileState, n: nat, t: State, e: FileState, h: FileState, m: nat, at: nat, x: seq<byte>)
    requires Change(s, f, n, t, e, m, at, x) && FileOk(t, e, m) && h == e.(fsize := h.fsize)
    ensures Change(s, f, n, t, h, m, at, x) && FileOk(t, h, m)
  {
    hide Logical, Meant, IsFileSector, Grown, Mirrored, Bytes, Sect;
    ChangeElsewhere(s, f, n, t, e, m, at, x, h);
  }

  lemma NextIsBig(s: State, f: FileState, n: nat, i: nat)
    requires FileCore(s, f, n) && i + 1 < |f.chain|
    ensures f.chain[i + 1] >= 2
  {
    hide Logical, IsFileSector, Fat, Covers, IsChain;
  }

  // An entry of 1 is never a file's doing.
  lemma BadEntryWasThere(s: State, f: FileState, n: nat, t: State, e: FileState, m: nat, at: nat, x: seq<byte>)
    requires Change(s, f, n, t, e, m, at, x)
    ensures HasBadEntry(t.geo, Logical(t)) ==> HasBadEntry(s.geo, Logical(s))
  {
    hide Logical, Meant, IsFileSector, Fat, Mirrored, Bytes, Covers, IsChain;
    MeantFat(s, f, n);
    MeantFat(t, e, m);
    if HasBadEntry(t.geo, Logical(t)) {
      var c :| IsCluster(Fat(t.geo, Logical(t)), c) && Fat(t.geo, Logical(t))[c] == 1;
      if c in e.chain {
        var i :| 0 <= i < |e.chain| && e.chain[i] == c;
        ChainIsLinked(t, e, m, i);
        if i + 1 < |e.chain| {
          NextIsBig(t, e, m, i);
        }
      }
      assert Fat(s.geo, Logical(s))[c] == 1;
    }
  }
}
