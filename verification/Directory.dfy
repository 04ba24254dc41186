// dir_sdi, dir_next and dir_remove on the directory object.
module Directory {
  import opened Words
  import opened Volume
  import opened FatTable
  import opened FatAccess
  import opened Chains
  import opened DirTable
  import opened Arith

  const DDEM: byte := 0xE5   // mark of a deleted entry

  // The directory object (DIR): a place in the table that starts at cluster sclust (0: root).
  class Dir {
    const fs: Fatfs
    var index: nat
    var sclust: u32
    var clust: u32
    var sect: u32
    var dir: nat       // offset of the entry in the window

    constructor (fs: Fatfs, sclust: u32)
      ensures this.fs == fs && this.sclust == sclust
    {
      this.fs := fs;
      this.sclust := sclust;
      index, clust, sect, dir := 0, 0, 0, 0;
    }

    ghost function Here(): Place
      reads this
    {
      Place(index, clust, sect, dir)
    }
  }

  lemma SectorFits(g: Geometry, c: nat, k: nat)
    requires 2 <= c < g.nFatent && k < g.csize
    ensures g.database <= ClustToSect(g, c) + k < DataEnd(g)
  {
    AreasInOrder(g);
    MulMono(c - 2 + 1, g.nFatent - 2, g.csize);
    MulMono(0, c - 2, g.csize);
    assert g.csize * (c - 1) == g.csize * (c - 2) + g.csize;
  }

  // A place that dir_sdi finds lies in the root area or the data area.
  lemma PlaceIsOutsideFat(g: Geometry, f: seq<nat>, sclust: nat, idx: nat)
    requires |f| == g.nFatent && Sdi(g, f, sclust, idx).At?
    ensures var p := Sdi(g, f, sclust, idx).place;
      && FatEnd(g) <= p.sect < DataEnd(g) && !IsHidden(g, p.sect) && !InFat(g, p.sect)
      && p.dir + SZ_DIRE <= SS
  {
    hide Nth, ClusterIndex, SectorIndex, ClustToSect;
    AreasInOrder(g);
    HasSector(g, Nth(f, FirstCluster(g, sclust), ClusterIndex(g, idx / PER_SECTOR)));
    var clst := FirstCluster(g, sclust);
    if clst != 0 {
      var c := Nth(f, clst, ClusterIndex(g, idx / PER_SECTOR));
      SectorFits(g, c, SectorIndex(g, idx / PER_SECTOR));
    }
  }

  // The cluster of a table that entry idx lies in.
  ghost function ClusterOf(g: Geometry, f: seq<nat>, first: nat, idx: nat): nat {
    Nth(f, first, Quo(idx, ClusterEntries(g)))
  }

  // Following the chain from clst, ic entries at a time.
  method FollowTable(fs: Fatfs, first: u32, idx: u32) returns (res: FResult, clst: u32, rest: nat)
    requires fs.Valid()
    modifies fs`wflag, fs`winsect, fs.win, fs.disk
    ensures fs.Valid() && Quiet(old(fs.Now()), fs.Now())
    ensures res == Ok || res == IntErr || (res == DiskErr && !fs.disk.reliable)
    ensures res == Ok ==>
      && rest == idx % ClusterEntries(fs.geo) && (first != 0 ==> clst != 0)
      && clst == ClusterOf(fs.geo, Fat(fs.geo, old(fs.View())), first, idx)
    ensures res == IntErr ==>
      ClustToSect(fs.geo, ClusterOf(fs.geo, Fat(fs.geo, old(fs.View())), first, idx)) == 0
  {
    hide Fat, Undisturbed, Reached, Logical, SoundLayout, ClustToSect, ClusterEntries;
    ghost var s := fs.Now();
    ghost var f := Fat(fs.geo, fs.View());
    QuietRefl(s);
    EntriesAreSmall(fs.geo, fs.View());
    var ic := ClusterEntries(fs.geo);
    res, clst, rest := Ok, first, idx;
    ghost var k := 0;
    while rest >= ic
      invariant fs.Valid() && Quiet(s, fs.Now()) && fs.View() == Logical(s)
      invariant idx == ic * k + rest
      invariant clst == Nth(f, first, k) && (first != 0 ==> clst != 0)
      invariant res == Ok
    {
      ghost var t := fs.Now();
      var nxt := GetFat(fs, clst);
      QuietCompose(s, t, fs.Now());
      QuietKeepsView(t, fs.Now());
      NthStep(f, first, k + 1);
      if nxt == ALL_ONES {
        return DiskErr, clst, rest;
      }
      if nxt < 2 || nxt >= fs.geo.nFatent {
        TableEnds(fs.geo, f, first, k + 1, ic, idx, rest - ic);
        return IntErr, clst, rest;
      }
      clst := nxt;
      rest := rest - ic;
      k := k + 1;
      assert ic * k == ic * (k - 1) + ic;
    }
    Quotient(idx, ic, k, rest);
  }

  lemma TableEnds(g: Geometry, f: seq<nat>, first: nat, k: nat, ic: nat, idx: nat, rest: nat)
    requires ic > 0 && k > 0 && Nth(f, first, k) == 0 && idx == ic * (k - 1) + ic + rest
    ensures ClustToSect(g, Nth(f, first, idx / ic)) == 0
  {
    hide SoundLayout, ClustToSect, Nth;
    assert ic * k == ic * (k - 1) + ic;
    assert ic * (idx / ic + 1) == ic * (idx / ic) + ic;
    if idx / ic < k {
      MulMono(idx / ic + 1, k, ic);
    }
    NthStaysOut(f, first, k, idx / ic);
    HasSector(g, 0);
  }

  // The sector that entry idx of the table is looked for in, the cluster it lies in, and its index
  // from the start of that cluster (or of the static table). 0 stands for no sector.
  method FindStart(fs: Fatfs, sclust: u32, idx: u32) returns (res: FResult, clst: u32, sect: u32, rest: nat)
    requires fs.Valid()
    modifies fs`wflag, fs`winsect, fs.win, fs.disk
    ensures fs.Valid() && Quiet(old(fs.Now()), fs.Now())
    ensures res == Ok || res == IntErr || (res == DiskErr && !fs.disk.reliable)
    ensures res != DiskErr ==>
      Started(fs.geo, Fat(fs.geo, old(fs.View())), sclust, idx, res == Ok, clst, sect, rest)
  {
    hide Fat, Undisturbed, Reached, Logical, SoundLayout, ClustToSect, Nth, ClusterEntries, ClusterIndex, SectorIndex;
    QuietRefl(fs.Now());
    clst, sect, rest := sclust, 0, idx;
    if clst == 1 || clst >= fs.geo.nFatent {
      res := IntErr;
    } else {
      if clst == 0 && fs.geo.fsType == FAT32 {
        clst := DirBase(fs.geo);
      }
      if clst == 0 {
        sect := DirBase(fs.geo);
        res := if idx >= fs.geo.nRootdir then IntErr else Ok;
      } else {
        InCluster(fs.geo, idx);
        res, clst, rest := FollowTable(fs, clst, idx);
        if res == Ok {
          SectorFits32(fs.geo, clst);
          sect := ClustToSect(fs.geo, clst);
        }
      }
    }
  }

  ghost predicate Started(g: Geometry, f: seq<nat>, sclust: nat, idx: nat, ok: bool, clst: nat, sect: nat, rest: nat)
    requires |f| == g.nFatent
  {
    if sclust == 1 || sclust >= g.nFatent then !ok
    else if FirstCluster(g, sclust) == 0 then
      if idx >= g.nRootdir then !ok else ok && clst == 0 && sect == g.dirbase && rest == idx
    else
      var c := Nth(f, FirstCluster(g, sclust), ClusterIndex(g, idx / PER_SECTOR));
      if ok then
        && clst == c != 0 && sect == ClustToSect(g, c)
        && rest / PER_SECTOR == SectorIndex(g, idx / PER_SECTOR) && rest % PER_SECTOR == idx % PER_SECTOR
      else ClustToSect(g, c) == 0
  }

  lemma SectorFits32(g: Geometry, c: nat)
    ensures ClustToSect(g, c) < DataEnd(g) < ALL_ONES
  {
    AreasInOrder(g);
    if 2 <= c < g.nFatent {
      SectorFits(g, c, 0);
    }
  }

  // dir_sdi: sets the directory object to entry idx of its table.
  method DirSdi(dp: Dir, idx: u32) returns (res: FResult)
    requires dp.fs.Valid()
    modifies dp`index, dp`clust, dp`sect, dp`dir, dp.fs`wflag, dp.fs`winsect, dp.fs.win, dp.fs.disk
    ensures dp.fs.Valid() && Quiet(old(dp.fs.Now()), dp.fs.Now())
    ensures res == DiskErr ==> !dp.fs.disk.reliable
    ensures res != DiskErr ==>
      Sdi(dp.fs.geo, Fat(dp.fs.geo, old(dp.fs.View())), dp.sclust, idx) ==
      if res == Ok then At(dp.Here()) else Stop(res)
  {
    hide Fat, Undisturbed, Reached, Logical, SoundLayout, ClustToSect, Nth, Sdi, Started;
    ghost var f := Fat(dp.fs.geo, dp.fs.View());
    dp.index := idx % 0x1_0000;
    var clst, sect, rest;
    res, clst, sect, rest := FindStart(dp.fs, dp.sclust, idx);
    if res != DiskErr {
      StartedIsSdi(dp.fs.geo, f, dp.sclust, idx, res == Ok, clst, sect, rest);
    }
    if res == Ok {
      dp.clust := clst;
      if sect == 0 {
        return IntErr;
      }
      dp.sect := sect + rest / PER_SECTOR;
      dp.dir := rest % PER_SECTOR * SZ_DIRE;
    }
  }

  // The place of entry idx, which is entry rest from the start of sector sect on.
  function PlaceFrom(idx: nat, clst: nat, sect: nat, rest: nat): Place {
    Place(idx % 0x1_0000, clst, sect + rest / PER_SECTOR, rest % PER_SECTOR * SZ_DIRE)
  }

  lemma StartedIsSdi(g: Geometry, f: seq<nat>, sclust: nat, idx: nat, ok: bool, clst: nat, sect: nat, rest: nat)
    requires |f| == g.nFatent && Started(g, f, sclust, idx, ok, clst, sect, rest)
    ensures Sdi(g, f, sclust, idx) ==
      if !ok || sect == 0 then Stop(IntErr)
      else At(PlaceFrom(idx, clst, sect, rest))
    ensures ok && sect != 0 ==> sect + rest / PER_SECTOR < ALL_ONES
  {
    hide Nth, ClusterIndex, SectorIndex;
    AreasInOrder(g);
    if ok && clst != 0 {
      HasSector(g, clst);
      if sect != 0 {
        SectorFits(g, clst, rest / PER_SECTOR);
      }
    }
  }

  function DirBase(g: Geometry): u32 {
    g.dirbase
  }

  // The cluster after clst in its table.
  method NextInTable(fs: Fatfs, clust: u32) returns (res: FResult, clst: u32)
    requires fs.Valid()
    modifies fs`wflag, fs`winsect, fs.win, fs.disk
    ensures fs.Valid() && Quiet(old(fs.Now()), fs.Now())
    ensures res == DiskErr ==> !fs.disk.reliable
    ensures var f := Fat(fs.geo, old(fs.View()));
      res != DiskErr ==>
      if !IsCluster(f, clust) || f[clust] <= 1 then res == IntErr
      else clst == f[clust] && if clst >= fs.geo.nFatent then res == NoFile else res == Ok
  {
    hide Fat, Undisturbed, Reached, Logical, SoundLayout;
    EntriesAreSmall(fs.geo, fs.View());
    ghost var s := fs.Now();
    clst := GetFat(fs, clust);
    QuietKeepsView(s, fs.Now());
    res := if clst <= 1 then IntErr else if clst == ALL_ONES then DiskErr
           else if clst >= fs.geo.nFatent then NoFile else Ok;
  }

  // dir_next, when the table must not be stretched: moves to the next entry.
  method DirNext(dp: Dir) returns (res: FResult)
    requires dp.fs.Valid() && dp.index < 0x1_0000 && dp.sect < ALL_ONES
    modifies dp`index, dp`clust, dp`sect, dp`dir, dp.fs`wflag, dp.fs`winsect, dp.fs.win, dp.fs.disk
    ensures dp.fs.Valid() && Quiet(old(dp.fs.Now()), dp.fs.Now())
    ensures res == DiskErr ==> !dp.fs.disk.reliable
    ensures res != DiskErr ==>
      Next(dp.fs.geo, Fat(dp.fs.geo, old(dp.fs.View())), old(dp.Here())) ==
      if res == Ok then At(dp.Here()) else Stop(res)
  {
    hide Fat, Undisturbed, Reached, Logical, SoundLayout, ClustToSect;
    var fs := dp.fs;
    ghost var f := Fat(fs.geo, fs.View());
    QuietRefl(fs.Now());
    AreasInOrder(fs.geo);
    var i := dp.index + 1;
    if i % 0x1_0000 == 0 || dp.sect == 0 {
      return NoFile;
    }
    if i % PER_SECTOR == 0 {
      dp.sect := dp.sect + 1;
      if dp.clust == 0 {
        if i >= fs.geo.nRootdir {
          return NoFile;
        }
      } else if SectorIndex(fs.geo, i / PER_SECTOR) == 0 {
        var clst;
        res, clst := NextInTable(fs, dp.clust);
        if res != Ok {
          return;
        }
        SectorFits32(fs.geo, clst);
        dp.clust := clst;
        dp.sect := ClustToSect(fs.geo, clst);
      }
    }
    dp.index := i;
    dp.dir := i % PER_SECTOR * SZ_DIRE;
    return Ok;
  }
}
