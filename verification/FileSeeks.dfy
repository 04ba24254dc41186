// f_lseek on the file object (normal seek).
module FileSeeks {
  import opened Words
  import opened Volume
  import opened FatTable
  import opened FatAccess
  import opened Chains
  import opened DirTable
  import opened Arith
  import opened FileModel
  import opened FileSteps
  import opened FileReads
  import opened FileWrites
  import opened FileRoom
  import opened FileStores

  // A file that reaches past the start of cluster k has that cluster.
  lemma HasClusterNumber(g: Geometry, chain: seq<nat>, n: nat, k: nat)
    requires Covers(g, chain, n) && k * ClusterBytes(g) < n
    ensures k < |chain|
  {
    hide SoundLayout, ClusterBytes, ClusterIndex;
    ByteInCluster(g, n - 1);
    var b := ClusterBytes(g);
    assert b * k <= n - 1;
    assert b * ((n - 1) / b + 1) == b * ((n - 1) / b) + b;
    if (n - 1) / b < k {
      MulMono((n - 1) / b + 1, k, b);
    }
  }

  // A chain of at least k + 1 clusters has room for the bytes of the first k + 1.
  lemma RoomFor(g: Geometry, chain: seq<nat>, p: nat, k: nat, r: nat)
    requires k < |chain| && p == ClusterStart(g, k) + r && 0 < r <= ClusterBytes(g)
    ensures Covers(g, chain, p) && InChain(g, chain, (p - 1) / SS) && ClusterIndex(g, (p - 1) / SS) == k
    ensures r % SS != 0 ==> InChain(g, chain, p / SS) && ClusterIndex(g, p / SS) == k && SectorIndex(g, p / SS) == r / SS
    ensures p % SS == r % SS
  {
    hide SoundLayout, ClusterBytes, ClusterIndex, SectorIndex;
    var b := ClusterBytes(g);
    ByteInCluster(g, p - 1);
    ByteInCluster(g, p);
    assert p - 1 == b * k + (r - 1);
    Quotient(p - 1, b, k, r - 1);
    SectorsIn(g, k, r);
    if r % SS != 0 {
      assert b % SS == 0 by { ClusterIsSectors(g); }
      assert r < b;
      assert p == b * k + r;
      Quotient(p, b, k, r);
      assert r == SS * (SectorIndex(g, p / SS)) + p % SS;
    }
  }

  lemma ClusterIsSectors(g: Geometry)
    ensures ClusterBytes(g) % SS == 0 && ClusterBytes(g) / SS == g.csize
  {
    AreasInOrder(g);
  }

  lemma SectorsIn(g: Geometry, k: nat, r: nat)
    ensures (k * ClusterBytes(g) + r) % SS == r % SS
  {
    AreasInOrder(g);
    assert k * ClusterBytes(g) == (k * g.csize) * SS;
  }

  // The cluster of the byte before position p, counted from the start of the file.
  function LastClusterOf(g: Geometry, p: nat): nat
    requires p > 0
  {
    (p - 1) / ClusterBytes(g)
  }

  // The file object is at cluster k of its chain, with the position at the start of it.
  predicate AtCluster(g: Geometry, f: FileState, k: nat) {
    k < |f.chain| && f.clust == f.chain[k] && f.fptr == ClusterStart(g, k)
  }

  // The cluster that seeking starts from when it does not start from the current one: the first
  // cluster, which is taken if there is none; 0 when that fails because the volume is full.
  method FirstToSeek(fp: Fil, ghost n: nat) returns (res: FResult, clst: u32)
    requires fp.Ready() && FileCore(fp.fs.Now(), fp.At(), n)
    modifies fp`chain, fp`sclust, fp`clust, fp.fs`wflag, fp.fs`winsect, fp.fs`lastClust, fp.fs`freeClust, fp.fs`fsiFlag,
             fp.fs.win, fp.fs.disk
    ensures fp.Ready()
    ensures res == Ok || (res == DiskErr && !fp.fs.disk.reliable) ||
      (res == IntErr && n == 0 && HasBadEntry(fp.fs.geo, old(fp.fs.View())))
    ensures res == Ok ==> Stretched(old(fp.fs.Now()), old(fp.At()), n, fp.fs.Now(), fp.At())
    ensures res == Ok && clst == 0 ==> IsFull(fp.fs.geo, fp.fs.View()) && fp.chain == [] && n == 0
    ensures res == Ok && clst != 0 ==> fp.chain != [] && clst == fp.clust == fp.chain[0]
    ensures res == Ok && clst != 0 ==> |fp.chain| == Max(|old(fp.chain)|, 1)
    ensures res == IntErr ==> old(fp.chain) == []
    ensures Tracked(old(fp.chain), old(fp.fs.Kept()), fp.chain, fp.fs.Kept())
    ensures res == IntErr ==> IsStuck(fp.fs.Now(), fp.chain, fp.fs.lastClust)
  {
    hide Fat, Logical, SoundLayout, FileCore, HasBadEntry, IsFull, Stretched, Sect, ClusterBytes, Tracked, IsStuck;
    ghost var s, f := fp.fs.Now(), fp.At();
    TrackedRefl(f.chain, fp.fs.Kept());
    StartOfChain(s, f, n);
    res := Ok;
    clst := fp.sclust;
    if clst == 0 {
      NoChain(s, f, n);
      clst := TakeFirst(fp, n);
      if clst == 1 {
        return IntErr, clst;
      }
      if clst == ALL_ONES {
        return DiskErr, clst;
      }
    } else {
      SameRefl(s, f, n, f);
      SameIsStretched(s, f, n, s, f);
    }
    ghost var t, e := fp.fs.Now(), fp.At();
    fp.clust := clst;
    StretchedElsewhere(s, f, n, t, e, fp.At());
  }

  // Where seeking to ofs > 0 starts: at the current cluster when that is not past the target, and
  // at the first one otherwise. The rest is what is left from there.
  method SeekStart(fp: Fil, ofs: u32, ghost n: nat) returns (res: FResult, clst: u32, rest: u32, ghost k: nat)
    requires fp.Ready() && FileOk(fp.fs.Now(), fp.At(), n) && ofs > 0
    modifies fp`chain, fp`sclust, fp`clust, fp`fptr, fp.fs`wflag, fp.fs`winsect, fp.fs`lastClust, fp.fs`freeClust, fp.fs`fsiFlag,
             fp.fs.win, fp.fs.disk
    ensures fp.Ready()
    ensures res == Ok || (res == DiskErr && !fp.fs.disk.reliable) ||
      (res == IntErr && n == 0 && HasBadEntry(fp.fs.geo, old(fp.fs.View())))
    ensures res == Ok ==> Stretched(old(fp.fs.Now()), old(fp.At()), n, fp.fs.Now(), fp.At())
    ensures res == Ok && clst == 0 ==> IsFull(fp.fs.geo, fp.fs.View()) && fp.chain == [] && fp.fptr == 0 && n == 0
    ensures res == Ok && clst != 0 ==>
      && AtCluster(fp.fs.geo, fp.At(), k) && clst == fp.clust && rest > 0 && fp.fptr + rest == ofs
      && |fp.chain| == Max(|old(fp.chain)|, k + 1)
    ensures res == IntErr ==> old(fp.chain) == []
    ensures Tracked(old(fp.chain), old(fp.fs.Kept()), fp.chain, fp.fs.Kept())
    ensures res == IntErr ==> IsStuck(fp.fs.Now(), fp.chain, fp.fs.lastClust)
  {
    hide Fat, Logical, SoundLayout, FileCore, HasBadEntry, IsFull, Stretched, ClusterStart, LastClusterOf, InPosition, Tracked, IsStuck;
    ghost var s, f := fp.fs.Now(), fp.At();
    TrackedRefl(f.chain, fp.fs.Kept());
    res, rest, k := Ok, ofs, 0;
    StartsAtZero(fp.fs.geo);
    var ifptr := fp.fptr;
    fp.fptr := 0;
    if ifptr > 0 && LastClusterOf(fp.fs.geo, ofs) >= LastClusterOf(fp.fs.geo, ifptr) {
      k := LastClusterOf(fp.fs.geo, ifptr);
      StartsBefore(fp.fs.geo, ifptr, ofs);
      CoreHasClusters(s, f, n);
      CurrentCluster(fp.fs.geo, f);
      fp.fptr := ClusterStart(fp.fs.geo, LastClusterOf(fp.fs.geo, ifptr));
      rest := ofs - fp.fptr;
      clst := fp.clust;
      SameRefl(s, f, n, fp.At());
      SameIsStretched(s, f, n, s, fp.At());
    } else {
      ghost var e := fp.At();
      SameRefl(s, f, n, e);
      SameIsStretched(s, f, n, s, e);
      StretchedIsCore(s, f, n, s, e);
      res, clst := FirstToSeek(fp, n);
      if res == Ok {
        StretchedTwice(s, f, n, s, e, fp.fs.Now(), fp.At());
      }
    }
  }

  lemma StartsAtZero(g: Geometry)
    ensures ClusterStart(g, 0) == 0
  {
  }

  lemma StartsBefore(g: Geometry, i: nat, o: nat)
    requires i > 0 && o > 0 && LastClusterOf(g, o) >= LastClusterOf(g, i)
    ensures ClusterStart(g, LastClusterOf(g, i)) < o
  {
    hide ClusterBytes;
    var b := ClusterBytes(g);
    MulMono((i - 1) / b, (o - 1) / b, b);
    assert o - 1 == b * ((o - 1) / b) + (o - 1) % b;
  }

  lemma CurrentCluster(g: Geometry, f: FileState)
    requires InPosition(g, f) && f.fptr > 0 && AreClusters(g, f.chain)
    ensures var k := LastClusterOf(g, f.fptr); k < |f.chain| && 2 <= f.clust == f.chain[k]
  {
    hide ClusterBytes, SoundLayout, Sect, ClusterIndex;
    ByteInCluster(g, f.fptr - 1);
  }

  lemma NoChain(s: State, f: FileState, n: nat)
    requires FileCore(s, f, n) && f.chain == []
    ensures n == 0
  {
    hide Fat, Logical, SoundLayout, IsFileSector, Sect;
    AreasInOrder(s.geo);
  }

  lemma StretchedTwice(s: State, f: FileState, n: nat, t: State, e: FileState, u: State, h: FileState)
    requires Stretched(s, f, n, t, e) && Stretched(t, e, n, u, h)
    ensures Stretched(s, f, n, u, h)
  {
    hide Change;
    StretchedThen(s, f, n, t, e, u, h, n, 0, []);
  }

  // One step along the chain without stretching it.
  method FollowChain(fp: Fil, clst: u32, ghost k: nat, ghost n: nat) returns (ncl: u32)
    requires fp.Ready() && FileCore(fp.fs.Now(), fp.At(), n) && k + 1 < |fp.chain| && clst == fp.chain[k]
    modifies fp.fs`wflag, fp.fs`winsect, fp.fs.win, fp.fs.disk
    ensures fp.Ready() && Stretched(old(fp.fs.Now()), old(fp.At()), n, fp.fs.Now(), fp.At())
    ensures ncl == fp.chain[k + 1] || (ncl == ALL_ONES && !fp.fs.disk.reliable)
    ensures 2 <= fp.chain[k + 1] < fp.fs.geo.nFatent
  {
    hide Fat, Logical, SoundLayout, FileCore, Stretched, Sect, Undisturbed;
    ghost var s, f := fp.fs.Now(), fp.At();
    ChainIsLinked(s, f, n, k);
    ChainIsLinked(s, f, n, k + 1);
    ncl := GetFat(fp.fs, clst);
    QuietKeepsView(s, fp.fs.Now());
    FollowedIsSame(s, f, n, fp.fs.Now(), f);
    SameIsStretched(s, f, n, fp.fs.Now(), f);
  }

  // One step to the next cluster; full when a cluster is needed and none is free.
  method SeekStep(fp: Fil, clst: u32, ghost k: nat, ghost n: nat) returns (res: FResult, full: bool, ncl: u32)
    requires fp.Ready() && FileCore(fp.fs.Now(), fp.At(), n) && k < |fp.chain| && clst == fp.chain[k]
    requires fp.canWrite || k + 1 < |fp.chain|
    modifies fp`chain, fp.fs`wflag, fp.fs`winsect, fp.fs`lastClust, fp.fs`freeClust, fp.fs`fsiFlag, fp.fs.win, fp.fs.disk
    ensures fp.Ready()
    ensures res == Ok || (res == DiskErr && !fp.fs.disk.reliable) ||
      (res == IntErr && fp.canWrite && HasBadEntry(fp.fs.geo, old(fp.fs.View())) && k + 1 == |old(fp.chain)|)
    ensures res == Ok ==> Stretched(old(fp.fs.Now()), old(fp.At()), n, fp.fs.Now(), fp.At())
    ensures res == Ok && full ==>
      fp.canWrite && IsFull(fp.fs.geo, fp.fs.View()) && fp.chain == old(fp.chain) && k + 1 == |fp.chain|
    ensures res == Ok && !full ==>
      k + 1 < |fp.chain| && fp.chain[k + 1] == ncl && |fp.chain| == Max(|old(fp.chain)|, k + 2)
    ensures Tracked(old(fp.chain), old(fp.fs.Kept()), fp.chain, fp.fs.Kept())
    ensures res == IntErr ==> IsStuck(fp.fs.Now(), fp.chain, fp.fs.lastClust)
  {
    hide Fat, Logical, SoundLayout, FileCore, HasBadEntry, IsFull, Stretched, Sect, Undisturbed, Tracked, IsStuck;
    ghost var s, f := fp.fs.Now(), fp.At();
    TrackedRefl(f.chain, fp.fs.Kept());
    SmallTable(fp.fs.geo);
    res, full := Ok, false;
    if fp.canWrite {
      ncl := NextCluster(fp, clst, k, n);
      if ncl == 0 {
        return Ok, true, ncl;
      }
    } else {
      ncl := FollowChain(fp, clst, k, n);
    }
    if ncl != 1 && ncl != ALL_ONES {
      NextIsCluster(s, f, n, fp.fs.Now(), fp.At(), k + 1);
    }
    if ncl == ALL_ONES {
      return DiskErr, false, ncl;
    }
    if ncl <= 1 || ncl >= fp.fs.geo.nFatent {
      return IntErr, false, ncl;
    }
  }

  lemma NextIsCluster(s: State, f: FileState, n: nat, t: State, e: FileState, i: nat)
    requires Stretched(s, f, n, t, e) && i < |e.chain|
    ensures 2 <= e.chain[i] < s.geo.nFatent
  {
    hide Fat, Logical, Grown, Mirrored, Bytes;
    ChainIsLinked(t, e, n, i);
  }

  // The loop that follows clusters. Ends at the cluster of the target, or at the end of the chain
  // when the volume is full; left bytes into that cluster.
  method SeekFollow(fp: Fil, first: u32, ofs: u32, rest: u32, ghost start: nat, ghost n: nat)
    returns (res: FResult, full: bool, left: u32, ghost k: nat)
    requires fp.Ready() && FileCore(fp.fs.Now(), fp.At(), n) && AtCluster(fp.fs.geo, fp.At(), start)
    requires first == fp.clust && rest > 0 && fp.fptr + rest == ofs && (fp.canWrite || ofs <= n)
    modifies fp`chain, fp`clust, fp`fptr, fp.fs`wflag, fp.fs`winsect, fp.fs`lastClust, fp.fs`freeClust, fp.fs`fsiFlag,
             fp.fs.win, fp.fs.disk
    ensures fp.Ready()
    ensures res == Ok || (res == DiskErr && !fp.fs.disk.reliable) ||
      (res == IntErr && fp.canWrite && HasBadEntry(fp.fs.geo, old(fp.fs.View()))
       && ofs > ClusterStart(fp.fs.geo, |old(fp.chain)|))
    ensures res == Ok ==>
      && Stretched(old(fp.fs.Now()), old(fp.At()), n, fp.fs.Now(), fp.At())
      && |fp.chain| == Max(|old(fp.chain)|, k + 1) && start <= k
      && AtCluster(fp.fs.geo, fp.At(), k) && 0 < left <= ClusterBytes(fp.fs.geo) && fp.fptr + left <= ofs
    ensures res == Ok && !full ==> fp.fptr + left == ofs
    ensures res == Ok && full ==>
      fp.canWrite && IsFull(fp.fs.geo, fp.fs.View()) && k + 1 == |fp.chain| && left == ClusterBytes(fp.fs.geo)
    ensures Tracked(old(fp.chain), old(fp.fs.Kept()), fp.chain, fp.fs.Kept())
    ensures res == IntErr ==> IsStuck(fp.fs.Now(), fp.chain, fp.fs.lastClust)
  {
    hide Fat, Logical, SoundLayout, FileCore, HasBadEntry, IsFull, Stretched, ClusterStart, InPosition, ClusterBytes, Tracked, IsStuck;
    ghost var s, f, c := fp.fs.Now(), fp.At(), fp.fs.Kept();
    TrackedRefl(f.chain, c);
    SameRefl(s, f, n, f);
    SameIsStretched(s, f, n, s, f);
    res, full, left, k := Ok, false, rest, start;
    var bcs := ClusterBytes(fp.fs.geo);
    var clst := first;
    while left > bcs
      invariant fp.Ready() && res == Ok && !full && clst == fp.clust
      invariant Stretched(s, f, n, fp.fs.Now(), fp.At()) && AtCluster(fp.fs.geo, fp.At(), k)
      invariant 0 < left && fp.fptr + left == ofs
      invariant |fp.chain| == Max(|f.chain|, k + 1) && start <= k && Tracked(f.chain, c, fp.chain, fp.fs.Kept())
      decreases left
    {
      ghost var t, e, d := fp.fs.Now(), fp.At(), fp.fs.Kept();
      StretchedIsCore(s, f, n, t, e);
      NextIsNeeded(t, e, n, k, left);
      var ncl;
      res, full, ncl := SeekStep(fp, clst, k, n);
      TrackedTwice(f.chain, c, e.chain, d, fp.chain, fp.fs.Kept());
      if res != Ok {
        StretchedHadBadEntry(s, f, n, t, e);
        PastEnd(fp.fs.geo, f, e, k, left);
        return;
      }
      StretchedTwice(s, f, n, t, e, fp.fs.Now(), fp.At());
      if full {
        left := bcs;
        return;
      }
      ghost var u, h := fp.fs.Now(), fp.At();
      clst := ncl;
      fp.clust := clst;
      fp.fptr := fp.fptr + bcs;
      left := left - bcs;
      k := k + 1;
      StartOfNext(fp.fs.geo, k);
      StretchedElsewhere(s, f, n, u, h, fp.At());
    }
  }

  // A step from the last cluster leads past the end of the chain, and of a shorter one.
  lemma PastEnd(g: Geometry, f: FileState, e: FileState, k: nat, left: nat)
    requires f.chain <= e.chain && AtCluster(g, e, k) && left > ClusterBytes(g)
    ensures k + 1 == |e.chain| ==> e.fptr + left > ClusterStart(g, |f.chain|)
  {
    hide ClusterBytes;
    if k + 1 == |e.chain| {
      MulMono(|f.chain|, k + 1, ClusterBytes(g));
      StartOfNext(g, k + 1);
    }
  }

  lemma StretchedHadBadEntry(s: State, f: FileState, n: nat, t: State, e: FileState)
    requires Stretched(s, f, n, t, e)
    ensures HasBadEntry(t.geo, Logical(t)) ==> HasBadEntry(s.geo, Logical(s))
  {
    BadEntryWasThere(s, f, n, t, e, n, 0, []);
  }

  lemma StartOfNext(g: Geometry, k: nat)
    requires k > 0
    ensures ClusterStart(g, k) == ClusterStart(g, k - 1) + ClusterBytes(g)
  {
    hide ClusterBytes;
  }

  // When the target lies in the file, so does the next cluster on the way there.
  lemma NextIsNeeded(s: State, f: FileState, n: nat, k: nat, left: nat)
    requires FileCore(s, f, n) && AtCluster(s.geo, f, k) && left > ClusterBytes(s.geo)
    ensures f.fptr + left <= n ==> k + 1 < |f.chain|
  {
    hide Fat, Logical, IsFileSector, ClusterBytes, Covers, IsChain;
    if f.fptr + left <= n {
      StartOfNext(s.geo, k + 1);
      HasClusterNumber(s.geo, f.chain, n, k + 1);
    }
  }

  // The position left bytes into cluster k.
  lemma Arrives(s: State, f: FileState, n: nat, k: nat, left: nat, e: FileState)
    requires FileCore(s, f, n) && AtCluster(s.geo, f, k) && 0 < left <= ClusterBytes(s.geo) && f.fptr + left < 0x1_0000_0000
    requires e == f.(fptr := f.fptr + left)
    ensures FileCore(s, e, Max(n, e.fptr)) && OnCluster(s.geo, e)
    ensures FileCore(s, e, n) && Bytes(s, e, Max(n, e.fptr))[..n] == Bytes(s, e, n)
    ensures ClustToSect(s.geo, e.clust) != 0
    ensures e.fptr % SS != 0 ==>
      && InChain(s.geo, e.chain, e.fptr / SS)
      && Sect(s.geo, e.chain, e.fptr / SS) == ClustToSect(s.geo, e.clust) + left / SS < ALL_ONES
      && IsFileSector(s.geo, e.chain, Sect(s.geo, e.chain, e.fptr / SS))
    ensures e.fptr % SS == left % SS
  {
    hide Fat, Logical, IsFileSector, ClusterBytes, Covers, IsChain, SoundLayout, Sect, InChain, ClustToSect, Bytes, ClusterStart;
    RoomFor(s.geo, e.chain, e.fptr, k, left);
    SameRefl(s, f, n, e);
    SameIsSound(s, f, n, s, e);
    LargerFile(s, e, n, Max(n, e.fptr));
    SectOfCluster(s.geo, e.chain, (e.fptr - 1) / SS);
    if e.fptr % SS != 0 {
      SectOfCluster(s.geo, e.chain, e.fptr / SS);
      SectorOfFile(s, e, n, e.fptr / SS);
      SizeOf(s, e, n);
    }
  }

  // Moves the position left bytes into cluster k and finds its sector, 0 at a sector boundary.
  method Arrive(fp: Fil, left: u32, ghost k: nat, ghost n: nat) returns (res: FResult, nsect: u32)
    requires fp.Ready() && FileCore(fp.fs.Now(), fp.At(), n) && AtCluster(fp.fs.geo, fp.At(), k)
    requires 0 < left <= ClusterBytes(fp.fs.geo) && fp.fptr + left < 0x1_0000_0000
    modifies fp`fptr
    ensures res == Ok && fp.fptr == old(fp.fptr) + left
    ensures var m := Max(n, fp.fptr);
      && FileCore(fp.fs.Now(), fp.At(), m) && FileCore(fp.fs.Now(), fp.At(), n) && OnCluster(fp.fs.geo, fp.At())
      && Bytes(fp.fs.Now(), fp.At(), m)[..n] == Bytes(fp.fs.Now(), fp.At(), n)
    ensures fp.fptr as int % SS != 0 ==>
      && InChain(fp.fs.geo, fp.chain, fp.fptr as int / SS) && nsect == Sect(fp.fs.geo, fp.chain, fp.fptr as int / SS)
      && IsFileSector(fp.fs.geo, fp.chain, nsect)
  {
    hide FileCore, AtCluster, ClusterBytes, OnCluster, InChain, Sect, IsFileSector, Bytes, ClustToSect, Logical;
    ghost var s, f := fp.fs.Now(), fp.At();
    Arrives(s, f, n, k, left, f.(fptr := f.fptr + left));
    res, nsect := Ok, 0;
    fp.fptr := fp.fptr + left;
    if left as int % SS != 0 {
      nsect := ClustToSect(fp.fs.geo, fp.clust);
      if nsect == 0 {
        res := IntErr;
      } else {
        nsect := nsect + left as int / SS;
      }
    }
  }

  // The position has been found: the file is as it was, with clusters up to the position, which is
  // on its cluster and, between sector boundaries, in sector nsect.
  ghost predicate Found(s: State, f: FileState, n: nat, t: State, e: FileState, nsect: nat) {
    && Stretched(s, f, n, t, e) && FileCore(t, e, Max(n, e.fptr)) && OnCluster(t.geo, e)
    && Bytes(t, e, Max(n, e.fptr))[..n] == Bytes(s, f, n)
    && (e.fptr % SS != 0 ==>
      InChain(t.geo, e.chain, e.fptr / SS) && nsect == Sect(t.geo, e.chain, e.fptr / SS) && IsFileSector(t.geo, e.chain, nsect))
  }

  // The volume is full and the position is at the end of the chain, before the target.
  ghost predicate StoppedShort(t: State, e: FileState, ofs: nat, canWrite: bool) {
    canWrite && Sound(t) && IsFull(t.geo, Logical(t)) && e.fptr < ofs && e.fptr == ClusterStart(t.geo, |e.chain|)
  }

  lemma IsFound(s: State, f: FileState, n: nat, t: State, e: FileState, nsect: nat)
    requires Stretched(s, f, n, t, e) && FileCore(t, e, n) && FileCore(t, e, Max(n, e.fptr)) && OnCluster(t.geo, e)
    requires Bytes(t, e, Max(n, e.fptr))[..n] == Bytes(t, e, n)
    requires e.fptr % SS != 0 ==>
      InChain(t.geo, e.chain, e.fptr / SS) && nsect == Sect(t.geo, e.chain, e.fptr / SS) && IsFileSector(t.geo, e.chain, nsect)
    ensures Found(s, f, n, t, e, nsect)
  {
    hide Logical, IsFileSector, Sect, InChain, FileCore, Bytes, OnCluster, Grown;
    assert Splice(Bytes(s, f, n), 0, []) == Bytes(s, f, n);
  }

  lemma EndOfChain(g: Geometry, f: FileState, k: nat)
    requires AtCluster(g, f, k) && k + 1 == |f.chain|
    ensures f.fptr + ClusterBytes(g) == ClusterStart(g, |f.chain|)
  {
    StartOfNext(g, k + 1);
  }

  lemma LongerStart(g: Geometry, f: FileState, e: FileState)
    requires f.chain <= e.chain
    ensures ClusterStart(g, |f.chain|) <= ClusterStart(g, |e.chain|)
  {
    hide ClusterBytes;
    MulMono(|f.chain|, |e.chain|, ClusterBytes(g));
  }

  // The clusters needed for a position in cluster k.
  lemma GrewToCluster(g: Geometry, f: FileState, h: FileState, k: nat, left: nat, e: FileState)
    requires |h.chain| == Max(|f.chain|, k + 1) && AtCluster(g, h, k) && 0 < left <= ClusterBytes(g)
    requires e == h.(fptr := h.fptr + left)
    ensures GrewTo(g, f, e, e.fptr)
  {
    hide ClusterBytes;
    Quotient(e.fptr - 1, ClusterBytes(g), k, left - 1);
  }

  lemma NotGrown(g: Geometry, f: FileState, e: FileState)
    requires f.chain == e.chain == [] && e.fptr == 0
    ensures GrewTo(g, f, e, e.fptr)
  {
  }

  // Finds the position ofs > 0: where seeking starts, the clusters in between, and the sector.
  method SeekTo(fp: Fil, ofs: u32, ghost n: nat) returns (res: FResult, nsect: u32)
    requires fp.Ready() && FileOk(fp.fs.Now(), fp.At(), n) && ofs > 0 && (fp.canWrite || ofs <= n)
    modifies fp`chain, fp`sclust, fp`clust, fp`fptr, fp.fs`wflag, fp.fs`winsect, fp.fs`lastClust, fp.fs`freeClust, fp.fs`fsiFlag,
             fp.fs.win, fp.fs.disk
    ensures fp.Ready()
    ensures res == Ok || (res == DiskErr && !fp.fs.disk.reliable) ||
      (res == IntErr && fp.canWrite && HasBadEntry(fp.fs.geo, old(fp.fs.View()))
       && ofs > ClusterStart(fp.fs.geo, |old(fp.chain)|))
    ensures res == Ok ==>
      && GrewTo(fp.fs.geo, old(fp.At()), fp.At(), fp.fptr)
      && Found(old(fp.fs.Now()), old(fp.At()), n, fp.fs.Now(), fp.At(), nsect)
      && (fp.fptr == ofs || StoppedShort(fp.fs.Now(), fp.At(), ofs, fp.canWrite))
    ensures Tracked(old(fp.chain), old(fp.fs.Kept()), fp.chain, fp.fs.Kept())
    ensures res == IntErr ==> IsStuck(fp.fs.Now(), fp.chain, fp.fs.lastClust)
  {
    hide Fat, Logical, FileCore, HasBadEntry, Stretched, InPosition, Found, AtCluster, ClusterBytes, Sect, IsFull, ClusterStart,
         Tracked, IsStuck, GrewTo;
    ghost var s, f, c := fp.fs.Now(), fp.At(), fp.fs.Kept();
    StartsAtZero(fp.fs.geo);
    nsect := 0;
    var clst, rest;
    ghost var k;
    res, clst, rest, k := SeekStart(fp, ofs, n);
    if res == Ok {
      ghost var t, e := fp.fs.Now(), fp.At();
      StretchedIsCore(s, f, n, t, e);
      if clst != 0 {
        StretchedHadBadEntry(s, f, n, t, e);
        var full, left;
        ghost var d := fp.fs.Kept();
        res, full, left, k := SeekFollow(fp, clst, ofs, rest, k, n);
        TrackedTwice(f.chain, c, e.chain, d, fp.chain, fp.fs.Kept());
        LongerStart(fp.fs.geo, f, e);
        if res == Ok {
          ghost var u, h := fp.fs.Now(), fp.At();
          StretchedTwice(s, f, n, t, e, u, h);
          StretchedIsCore(s, f, n, u, h);
          if full {
            EndOfChain(u.geo, h, k);
          }
          res, nsect := Arrive(fp, left, k, n);
          StretchedElsewhere(s, f, n, u, h, fp.At());
          IsFound(s, f, n, fp.fs.Now(), fp.At(), nsect);
          GrewToCluster(u.geo, f, h, k, left, fp.At());
        }
      } else {
        IsFound(s, f, n, t, e, nsect);
        NotGrown(fp.fs.geo, f, e);
      }
    }
  }

  lemma AtStart(s: State, f: FileState, n: nat, e: FileState)
    requires FileCore(s, f, n) && e == f.(fptr := 0)
    ensures Found(s, f, n, s, e, 0)
  {
    hide Logical, IsFileSector, Sect, InChain, Bytes, Grown, Stretched;
    SameRefl(s, f, n, e);
    SameIsStretched(s, f, n, s, e);
    SameBytes(s, f, n, s, e);
  }

  // The sector of the position is in the buffer.
  lemma Loaded(s: State, f: FileState, n: nat, t: State, e: FileState, nsect: nat, u: State, h: FileState, ofs: nat, canWrite: bool)
    requires Found(s, f, n, t, e, nsect) && SameFile(t, e, Max(n, e.fptr), u, h)
    requires h.fptr == e.fptr && h.clust == e.clust && h.fsize == e.fsize && (e.fptr % SS != 0 ==> h.dsect == nsect)
    ensures Found(s, f, n, u, h, nsect) && FileOk(u, h, Max(n, h.fptr))
    ensures StoppedShort(t, e, ofs, canWrite) ==> StoppedShort(u, h, ofs, canWrite)
  {
    hide Logical, IsFileSector, Sect, Grown, FileCore, Meant, Stretched, Bytes, Fat, ClusterStart;
    var m := Max(n, e.fptr);
    SameIsSound(t, e, m, u, h);
    SameBytes(t, e, m, u, h);
    StretchedIsCore(s, f, n, t, e);
    Shrinks(t, e, m, u, h, n);
    StretchedThenSame(s, f, n, t, e, u, h);
    MeantFat(t, e, m);
    MeantFat(u, h, m);
    MeantIs(t, e, m, u, h);
  }

  lemma MeantIs(s: State, f: FileState, n: nat, t: State, e: FileState)
    requires SameFile(s, f, n, t, e)
    ensures Meant(t, e) == Meant(s, f) && t.geo == s.geo && e.chain == f.chain
  {
  }

  // What holds for a file of m bytes holds for its first n bytes.
  lemma Shrinks(s: State, f: FileState, m: nat, t: State, e: FileState, n: nat)
    requires SameFile(s, f, m, t, e) && FileCore(s, f, n) && n <= m
    ensures SameFile(s, f, n, t, e)
  {
    hide Logical, IsFileSector, Sect, IsChain, Fat, Meant, InChain;
  }

  method LoadPosition(fp: Fil, nsect: u32, ghost n: nat, ghost s: State, ghost f: FileState) returns (res: FResult)
    requires fp.Ready() && Found(s, f, n, fp.fs.Now(), fp.At(), nsect)
    modifies fp`dirty, fp`dsect, fp.buf, fp.fs.disk
    ensures fp.Ready() && (res == Ok || (res == DiskErr && !fp.fs.disk.reliable))
    ensures res == Ok ==>
      Found(s, f, n, fp.fs.Now(), fp.At(), nsect) && FileOk(fp.fs.Now(), fp.At(), Max(n, fp.fptr))
    ensures res == Ok ==>
      forall ofs: nat :: StoppedShort(old(fp.fs.Now()), old(fp.At()), ofs, fp.canWrite) ==>
        StoppedShort(fp.fs.Now(), fp.At(), ofs, fp.canWrite)
  {
    hide Fat, Logical, FileCore, Stretched, OnCluster, Sect, Found, SameFile, StoppedShort, IsFileSector, FileOk, Bytes;
    ghost var t, e := fp.fs.Now(), fp.At();
    ghost var m := Max(n, fp.fptr);
    FoundMeans(s, f, n, t, e, nsect);
    res := Ok;
    if fp.fptr as int % SS != 0 && nsect != fp.dsect {
      res := LoadSector(fp, nsect, m);
    } else {
      SameRefl(t, e, m, e);
    }
    if res == Ok {
      forall ofs: nat | true
        ensures StoppedShort(t, e, ofs, fp.canWrite) ==> StoppedShort(fp.fs.Now(), fp.At(), ofs, fp.canWrite)
      {
        Loaded(s, f, n, t, e, nsect, fp.fs.Now(), fp.At(), ofs, fp.canWrite);
      }
      Loaded(s, f, n, t, e, nsect, fp.fs.Now(), fp.At(), 0, fp.canWrite);
    }
  }

  lemma FoundMeans(s: State, f: FileState, n: nat, t: State, e: FileState, nsect: nat)
    requires Found(s, f, n, t, e, nsect)
    ensures FileCore(t, e, Max(n, e.fptr))
    ensures e.fptr % SS != 0 ==> IsFileSector(t.geo, e.chain, nsect)
  {
  }

  lemma Settles(s: State, f: FileState, n: nat, t: State, e: FileState, nsect: nat, h: FileState, ofs: nat, canWrite: bool)
    requires Found(s, f, n, t, e, nsect) && FileOk(t, e, Max(n, e.fptr)) && h == e.(fsize := h.fsize)
    ensures FileOk(t, h, Max(n, e.fptr)) && Stretched(s, f, n, t, h)
    ensures Bytes(t, h, Max(n, e.fptr))[..n] == Bytes(s, f, n)
    ensures StoppedShort(t, e, ofs, canWrite) ==> StoppedShort(t, h, ofs, canWrite)
  {
    hide Logical, IsFileSector, Sect, Grown, Meant, Stretched, Fat, ClusterStart;
    StretchedElsewhere(s, f, n, t, e, h);
  }

  lemma StartsGrown(g: Geometry, f: FileState, e: FileState)
    requires e.chain == f.chain && e.fptr == 0
    ensures GrewTo(g, f, e, e.fptr)
  {
  }

  lemma GrowthOf(g: Geometry, f: FileState, x: FileState, e: FileState)
    requires GrewTo(g, f, x, x.fptr) && e.chain == x.chain && e.fptr == x.fptr
    ensures GrewTo(g, f, e, e.fptr)
  {
  }

  // The position found is the target, or as far as the file's clusters and the free ones go.
  lemma SeeksWhatFits(s: State, f: FileState, n: nat, t: State, e: FileState, ofs: nat, canWrite: bool)
    requires Stretched(s, f, n, t, e) && GrewTo(t.geo, f, e, e.fptr)
    requires e.fptr == ofs || StoppedShort(t, e, ofs, canWrite)
    ensures Sound(s) && e.fptr == Min(ofs, Room(s, f.chain))
  {
    hide FileCore, Logical, Fat, Meant, Bytes, Grown, Mirrored, IsFull, Room, Splice, ClustersFor, ClusterStart;
    ClustersAreConserved(s, f, n, t, e, n, 0, []);
    CoreIsSound(s, f, n);
    CoreIsSound(t, e, n);
    ChainInRoom(t, e, e.fptr);
    if e.fptr != ofs {
      FullAtEnd(t, e);
    }
  }

  // Where f_lseek is to go: a file that is not open for writing is not lengthened.
  function SeekTarget(offset: nat, fsize: nat, canWrite: bool): nat {
    if canWrite then offset else Min(offset, fsize)
  }

  // f_lseek: moves the position to offset, lengthening the file if it is open for writing, as far as
  // its clusters and the free ones go. Only clusters that the new position needs are taken.
  method Seek(fp: Fil, offset: u32) returns (res: FResult)
    requires fp.Ready() && FileOk(fp.fs.Now(), fp.At(), fp.fsize)
    modifies fp`chain, fp`sclust, fp`clust, fp`fptr, fp`fsize, fp`dirty, fp`dsect, fp`written, fp`err, fp.buf,
             fp.fs`wflag, fp.fs`winsect, fp.fs`lastClust, fp.fs`freeClust, fp.fs`fsiFlag, fp.fs.win, fp.fs.disk
    ensures fp.Ready()
    ensures old(fp.err) != Ok ==>
      && res == old(fp.err) == fp.err && fp.At() == old(fp.At()) && fp.written == old(fp.written)
      && fp.fs.Now() == old(fp.fs.Now()) && fp.fs.Kept() == old(fp.fs.Kept())
    ensures old(fp.err) == Ok ==> res == fp.err
    ensures old(fp.err) == Ok ==>
      res == Ok || (res == DiskErr && !fp.fs.disk.reliable) ||
      (res == IntErr && fp.canWrite && HasBadEntry(fp.fs.geo, old(fp.fs.View()))
       && offset > ClusterStart(fp.fs.geo, |old(fp.chain)|))
    ensures Tracked(old(fp.chain), old(fp.fs.Kept()), fp.chain, fp.fs.Kept())
    ensures old(fp.err) == Ok && res == IntErr ==> IsStuck(fp.fs.Now(), fp.chain, fp.fs.lastClust)
    ensures old(fp.err) == Ok && res == Ok ==>
      && fp.fptr == Min(SeekTarget(offset, old(fp.fsize), fp.canWrite), old(Room(fp.fs.Now(), fp.chain)))
      && GrewTo(fp.fs.geo, old(fp.At()), fp.At(), fp.fptr)
      && FileOk(fp.fs.Now(), fp.At(), fp.fsize) && fp.fsize == Max(old(fp.fsize), fp.fptr)
      && Stretched(old(fp.fs.Now()), old(fp.At()), old(fp.fsize), fp.fs.Now(), fp.At())
      && Bytes(fp.fs.Now(), fp.At(), fp.fsize)[..old(fp.fsize)] == old(Bytes(fp.fs.Now(), fp.At(), fp.fsize))
      && (fp.fptr == SeekTarget(offset, old(fp.fsize), fp.canWrite)
          || StoppedShort(fp.fs.Now(), fp.At(), offset, fp.canWrite))
      && fp.written == (old(fp.written) || fp.fptr > old(fp.fsize))
  {
    hide Fat, Logical, FileCore, HasBadEntry, Stretched, OnCluster, Found, Sect, InPosition, IsFull, ClusterStart, Tracked, IsStuck,
         GrewTo, Room;
    ghost var s, f, n := fp.fs.Now(), fp.At(), fp.fsize;
    TrackedRefl(f.chain, fp.fs.Kept());
    if fp.err != Ok {
      return fp.err;
    }
    res := Ok;
    var ofs := offset;
    if ofs > fp.fsize && !fp.canWrite {
      ofs := fp.fsize;
    }
    var nsect: u32 := 0;
    if ofs == 0 {
      fp.fptr := 0;
      AtStart(s, f, n, fp.At());
      StartsGrown(fp.fs.geo, f, fp.At());
    } else {
      res, nsect := SeekTo(fp, ofs, n);
    }
    ghost var x := fp.At();
    if res == Ok {
      res := LoadPosition(fp, nsect, n, s, f);
    }
    if res != Ok {
      fp.err := res;
    } else {
      ghost var t, e := fp.fs.Now(), fp.At();
      if fp.fptr > fp.fsize {
        fp.fsize := fp.fptr;
        fp.written := true;
      }
      Settles(s, f, n, t, e, nsect, fp.At(), offset, fp.canWrite);
      GrowthOf(fp.fs.geo, f, x, fp.At());
      SeeksWhatFits(s, f, n, t, fp.At(), ofs, fp.canWrite);
    }
  }
}
