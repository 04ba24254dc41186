// f_unlink from the point where the entry to delete has been found: marking the entry, freeing the
// chain, and synchronizing. The order in which this reaches the disk is what makes stopping at any
// moment harmless.
module Unlink {
  import opened Words
  import opened Volume
  import opened Window
  import opened FatTable
  import opened Chains
  import opened DirTable
  import opened Directory
  import opened DirReads
  import opened Sync
  import Freeing

  // Byte offsets in a directory entry.
  const CLUSTER_HIGH := 20
  const CLUSTER_LOW := 26

  // The sector with the directory entry at offset o cleared and marked deleted.
  function Marked(w: Sector, o: nat): (r: Sector)
    requires o + SZ_DIRE <= SS
    ensures r[o] == 0xE5 && forall i :: o < i < o + 32 ==> r[i] == 0
    ensures forall i :: 0 <= i < SS && !(o <= i < o + 32) ==> r[i] == w[i]
  {
    w[..o] + [DDEM] + seq<byte>(SZ_DIRE - 1, _ => 0) + w[o + SZ_DIRE..]
  }

  function Erased(v: Image, p: Place): (w: Image)
    requires p.sect < |v| && p.dir + SZ_DIRE <= SS
    ensures |w| == |v|
  {
    v[p.sect := Marked(v[p.sect], p.dir)]
  }

  ghost function Overwritten(s: State, w: Sector): State {
    s.(win := w, wflag := true)
  }

  // Changing a window that shows a sector changes that sector of the volume, in memory.
  lemma OverwriteStores(s: State, w: Sector)
    requires Sound(s) && s.winsect < |s.data| && !IsHidden(s.geo, s.winsect)
    ensures Steps(s, Overwritten(s, w), iset{}) && Sound(Overwritten(s, w))
    ensures Logical(s)[s.winsect] == s.win
    ensures Logical(Overwritten(s, w)) == Logical(s)[s.winsect := w]
  {
    VisibleUpdate(s.geo, s.data, s.winsect, s.win);
    VisibleUpdate(s.geo, s.data, s.winsect, w);
  }

  // The entry in the window is cleared and marked.
  method MarkEntry(fs: Fatfs, o: nat)
    requires fs.Valid() && o + SZ_DIRE <= SS
    requires fs.winsect < |fs.disk.data| && !IsHidden(fs.geo, fs.winsect)
    modifies fs.win, fs`wflag
    ensures fs.Now() == Overwritten(old(fs.Now()), Marked(old(fs.win[..]), o))
  {
    forall i | 0 <= i < SZ_DIRE {
      fs.win[o + i] := 0;
    }
    fs.win[o] := DDEM;
    fs.wflag := true;
    assert fs.win[..] == Marked(old(fs.win[..]), o);
  }

  // From s to t the entry at p has been marked deleted, in memory at least; nothing else.
  ghost predicate EntryMarked(s: State, t: State, p: Place)
    requires Sound(s) && p.sect < |s.data| && p.dir + SZ_DIRE <= SS
  {
    && Steps(s, t, iset{Logical(s)}) && Sound(t) && t.geo == s.geo
    && Logical(t) == Erased(Logical(s), p)
  }

  lemma MarkingComposes(s: State, t: State, p: Place)
    requires Quiet(s, t) && Sound(s) && Sound(t) && p.sect < |t.data| == |s.data| && p.dir + SZ_DIRE <= SS
    requires t.winsect == p.sect && !IsHidden(t.geo, p.sect) && t.geo == s.geo
    ensures EntryMarked(s, Overwritten(t, Marked(t.win, p.dir)), p)
  {
    OverwriteStores(t, Marked(t.win, p.dir));
  }

  // dir_remove.
  method DirRemove(dp: Dir) returns (res: FResult)
    requires dp.fs.Valid() && dp.index < 0x1_0000
    modifies dp`index, dp`clust, dp`sect, dp`dir, dp.fs`wflag, dp.fs`winsect, dp.fs.win, dp.fs.disk
    ensures dp.fs.Valid()
    ensures var sdi := Sdi(dp.fs.geo, Fat(dp.fs.geo, old(dp.fs.View())), dp.sclust, old(dp.index));
      && (res == DiskErr ==> !dp.fs.disk.reliable && Quiet(old(dp.fs.Now()), dp.fs.Now()))
      && (res == Ok ==> sdi.At? && sdi.place.sect < |old(dp.fs.disk.data)| && sdi.place.dir + SZ_DIRE <= SS &&
                        EntryMarked(old(dp.fs.Now()), dp.fs.Now(), sdi.place))
      && (res != Ok && res != DiskErr ==> sdi == Stop(res) && Quiet(old(dp.fs.Now()), dp.fs.Now()))
  {
    hide Fat, Undisturbed, Reached, Logical, Sdi, Marked;
    var fs := dp.fs;
    ghost var s := fs.Now();
    res := DirSdi(dp, dp.index);
    if res == Ok {
      PlaceIsOutsideFat(fs.geo, Fat(fs.geo, Logical(s)), dp.sclust, old(dp.index));
      ghost var t := fs.Now();
      res := MoveWindow(fs, dp.sect);
      QuietCompose(s, t, fs.Now());
      if res == Ok {
        QuietIsSound(s, fs.Now());
        MarkingComposes(s, fs.Now(), dp.Here());
        MarkEntry(fs, dp.dir);
      }
    }
  }

  // ----- f_unlink

  // The start cluster of an entry (ld_clust).
  function LdClust(g: Geometry, w: Sector, o: nat): (c: u32)
    requires o + SZ_DIRE <= SS
  {
    LdWord(w, o + CLUSTER_LOW) + if g.fsType == FAT32 then 0x1_0000 * LdWord(w, o + CLUSTER_HIGH) else 0
  }

  // What is read from an entry with these two halves of a cluster number.
  lemma LdClustReads(g: Geometry, w: Sector, o: nat, low: nat, high: nat)
    requires o + SZ_DIRE <= SS && low < 0x1_0000 && high < 0x1_0000
    ensures LdClust(g, StWord(StWord(w, o + 20, high), o + 26, low), o) == low + if g.fsType == FAT32 then 0x1_0000 * high else 0
  {
  }

  // What the disk may show while an entry at p and the chain from dclst are being deleted: the
  // chain is only touched in views in which the entry has been marked.
  ghost function UnlinkViews(g: Geometry, v: Image, p: Place, dclst: nat): iset<Image>
    requires Holds(g, v) && p.sect < |v| && p.dir + SZ_DIRE <= SS
  {
    iset{v, Erased(v, p)} + if dclst >= 2 then Freeing.FreeingViews(g, Erased(v, p), dclst) else iset{}
  }

  // f_unlink has finished: the entry is marked and the chain is free.
  ghost function UnlinkedImage(g: Geometry, v: Image, p: Place, dclst: nat): Image
    requires Holds(g, v) && p.sect < |v| && p.dir + SZ_DIRE <= SS
  {
    if dclst >= 2 then Freeing.FreedImage(g, Erased(v, p), dclst) else Erased(v, p)
  }

  // From s to t deleting has got as far as views show; done says that it is complete.
  ghost predicate Unlinking(s: State, t: State, p: Place, dclst: nat, done: bool)
    requires Sound(s) && p.sect < |s.data| && p.dir + SZ_DIRE <= SS
  {
    && Steps(s, t, UnlinkViews(s.geo, Logical(s), p, dclst))
    && Logical(t) in UnlinkViews(s.geo, Logical(s), p, dclst)
    && (done ==> Logical(t) == UnlinkedImage(s.geo, Logical(s), p, dclst))
  }

  lemma NothingUnlinked(s: State, t: State, p: Place, dclst: nat)
    requires Sound(s) && p.sect < |s.data| && p.dir + SZ_DIRE <= SS && Quiet(s, t)
    ensures Unlinking(s, t, p, dclst, false)
  {
    hide Fat, Erased, Logical;
  }

  lemma OnlyMarked(s: State, t: State, p: Place, dclst: nat)
    requires Sound(s) && p.sect < |s.data| && p.dir + SZ_DIRE <= SS && EntryMarked(s, t, p)
    ensures Unlinking(s, t, p, dclst, dclst == 0)
  {
    hide Fat, Erased, Logical;
  }

  lemma MarkedThenFreed(s: State, t: State, u: State, p: Place, dclst: nat, res: FResult)
    requires Sound(s) && p.sect < |s.data| && p.dir + SZ_DIRE <= SS && EntryMarked(s, t, p)
    requires dclst != 0 && Freeing.Removed(t, u, dclst, res)
    ensures Unlinking(s, u, p, dclst, res != DiskErr)
  {
    hide Fat, Logical, Erased, Reached, Freeing.FreeingViews, Freeing.FreedImage, PutBytes;
    var views := UnlinkViews(s.geo, Logical(s), p, dclst);
    StepsWiden(s, t, iset{Logical(s)}, views);
    if 2 <= dclst < s.geo.nFatent {
      Freeing.EndIsView(s.geo, Logical(t), dclst);
      StepsWiden(t, u, Freeing.FreeingViews(s.geo, Logical(t), dclst), views);
      StepsCompose(s, t, u, views);
    } else if dclst >= 2 {
      NothingToFree(s.geo, Logical(t), dclst);
    }
  }

  lemma NothingToFree(g: Geometry, v: Image, dclst: nat)
    requires Holds(g, v) && dclst >= g.nFatent
    ensures Freeing.FreedImage(g, v, dclst) == v
  {
  }

  lemma UnlinkingSettles(s: State, t: State, u: State, p: Place, dclst: nat, done: bool)
    requires Sound(s) && p.sect < |s.data| && p.dir + SZ_DIRE <= SS
    requires Unlinking(s, t, p, dclst, done) && Quiet(t, u)
    ensures Unlinking(s, u, p, dclst, done)
  {
    hide Fat, Erased, Logical, UnlinkViews, UnlinkedImage;
  }

  // The same with what sync_fs does at the end on a volume where FSINFO goes over the FAT: it stores
  // sector w there, or leaves it in the window.
  ghost predicate Deleted(s: State, t: State, p: Place, dclst: nat, done: bool, w: Sector)
    requires Sound(s) && p.sect < |s.data| && p.dir + SZ_DIRE <= SS
  {
    Unlinking(s, t, p, dclst, done)
    || (InfoIsInFat(s.geo) && exists u :: Unlinking(s, u, p, dclst, true) && InfoTried(u, t, w))
  }

  // Deleting after the window has moved is deleting.
  lemma DeletedAfter(s: State, u: State, t: State, p: Place, dclst: nat, done: bool, w: Sector)
    requires Sound(s) && p.sect < |s.data| && p.dir + SZ_DIRE <= SS && Quiet(s, u)
    requires Sound(u) && p.sect < |u.data| && Deleted(u, t, p, dclst, done, w)
    ensures Deleted(s, t, p, dclst, done, w) && (Unlinking(u, t, p, dclst, done) ==> Unlinking(s, t, p, dclst, done))
  {
    hide Unlinking, InfoTried, Logical;
    if Unlinking(u, t, p, dclst, done) {
      UnlinkingAfter(s, u, t, p, dclst, done);
    } else {
      var x :| Unlinking(u, x, p, dclst, true) && InfoTried(x, t, w);
      UnlinkingAfter(s, u, x, p, dclst, true);
      QuietIsSound(s, u);
    }
  }

  lemma UnlinkingAfter(s: State, u: State, t: State, p: Place, dclst: nat, done: bool)
    requires Sound(s) && p.sect < |s.data| && p.dir + SZ_DIRE <= SS && Quiet(s, u)
    requires Sound(u) && p.sect < |u.data| && Unlinking(u, t, p, dclst, done)
    ensures Unlinking(s, t, p, dclst, done)
  {
    hide Fat, Logical, Erased, Reached, Freeing.FreeingViews, Freeing.FreedImage;
    var views := UnlinkViews(s.geo, Logical(s), p, dclst);
    QuietIsSound(s, u);
    StepsWiden(s, u, iset{Logical(s)}, views);
    StepsCompose(s, u, t, views);
  }

  // The table from cluster dclst on has nothing but its first two entries, as far as dir_read sees.
  ghost predicate IsVacant(g: Geometry, v: Image, dclst: nat)
    requires Holds(g, v)
  {
    Sdi(g, Fat(g, v), dclst, 2).At? && exists j: nat :: ReadsTo(g, v, dclst, 2, j, NoFile)
  }

  // Whether the table from cluster dclst on has an entry in use behind its first two: f_unlink on a
  // copy of the directory object.
  method Vacant(dp: Dir, dclst: u32) returns (res: FResult)
    requires dp.fs.Valid()
    modifies dp.fs`wflag, dp.fs`winsect, dp.fs.win, dp.fs.disk
    ensures dp.fs.Valid() && Quiet(old(dp.fs.Now()), dp.fs.Now())
    ensures res == Ok || res == Denied || res == IntErr || (res == DiskErr && !dp.fs.disk.reliable)
    ensures res != DiskErr ==> (res == Denied <==> HasEntry(dp.fs.geo, old(dp.fs.View()), dclst, 2))
    ensures res != DiskErr ==> (res == Ok <==> IsVacant(dp.fs.geo, old(dp.fs.View()), dclst))
  {
    hide Fat, Logical, Undisturbed, Reached, Sdi, HasEntry, ReadsTo;
    var fs := dp.fs;
    ghost var s := fs.Now();
    var sdj := new Dir(fs, dclst);
    SdiResult(fs.geo, Fat(fs.geo, fs.View()), dclst, 2);
    res := DirSdi(sdj, 2);
    if res == Ok {
      ghost var t := fs.Now();
      ghost var j;
      QuietKeepsView(s, t);
      PlaceIsOutsideFat(fs.geo, Fat(fs.geo, fs.View()), dclst, 2);
      res, j := DirRead(sdj);
      QuietCompose(s, t, fs.Now());
      if res != DiskErr {
        OneEnd(fs.geo, Logical(s), dclst, j, res);
      }
      if res == Ok {
        res := Denied;
      } else if res == NoFile {
        res := Ok;
      }
    } else if res != DiskErr {
      NoTableNoEntry(fs.geo, Logical(s), dclst);
    }
  }

  lemma OneEnd(g: Geometry, v: Image, dclst: nat, j: nat, res: FResult)
    requires Holds(g, v) && ReadsTo(g, v, dclst, 2, j, res)
    ensures (exists k: nat :: ReadsTo(g, v, dclst, 2, k, NoFile)) <==> res == NoFile
  {
    hide ReadsTo;
    if k: nat :| ReadsTo(g, v, dclst, 2, k, NoFile) {
      ReadsOnce(g, v, dclst, 2, j, res, k, NoFile);
    }
  }

  lemma SdiResult(g: Geometry, f: seq<nat>, sclust: nat, i: nat)
    requires |f| == g.nFatent && i < 0x1_0000
    ensures match Sdi(g, f, sclust, i)
      case At(p) => p.index == i
      case Stop(res) => res == IntErr
  {
  }

  lemma NoTableNoEntry(g: Geometry, v: Image, sclust: nat)
    requires Holds(g, v) && Sdi(g, Fat(g, v), sclust, 2).Stop?
    ensures !HasEntry(g, v, sclust, 2)
  {
    hide Fat, Sdi;
    NoneFound(g, v, sclust, 2, 2);
  }

  // f_unlink turns the entry down: it is read-only, or the current directory, or a directory in which
  // something is left.
  ghost predicate IsRefused(g: Geometry, v: Image, attr: int, dclst: nat, cdir: nat)
    requires Holds(g, v)
  {
    attr % 2 == 1 || (dclst != 0 && attr / 0x10 % 2 == 1 && (dclst == cdir || HasEntry(g, v, dclst, 2)))
  }

  // It goes on to delete it: what is a directory is another one than the current one, and empty.
  ghost predicate MayGo(g: Geometry, v: Image, attr: int, dclst: nat, cdir: nat)
    requires Holds(g, v)
  {
    attr % 2 == 0 && (dclst != 0 && attr / 0x10 % 2 == 1 ==> dclst != cdir && IsVacant(g, v, dclst))
  }

  lemma VacantHasNone(g: Geometry, v: Image, dclst: nat)
    requires Holds(g, v) && IsVacant(g, v, dclst)
    ensures !HasEntry(g, v, dclst, 2)
  {
    hide ReadsTo, HasEntry, Fat, Sdi;
    var j: nat :| ReadsTo(g, v, dclst, 2, j, NoFile);
    ReadsToEntry(g, v, dclst, 2, j, NoFile);
  }

  lemma GoingIsNotRefused(g: Geometry, v: Image, attr: int, dclst: nat, cdir: nat)
    requires Holds(g, v)
    ensures MayGo(g, v, attr, dclst, cdir) ==> !IsRefused(g, v, attr, dclst, cdir)
  {
    hide IsVacant, HasEntry;
    if IsVacant(g, v, dclst) {
      VacantHasNone(g, v, dclst);
    }
  }

  // A directory with a chain in order is empty as far as dir_read sees exactly when it has a third entry,
  // which may end it, and nothing from there on.
  lemma EmptyIsVacant(g: Geometry, v: Image, s: seq<nat>)
    requires Holds(g, v) && IsChain(Fat(g, v), s)
    ensures IsVacant(g, v, s[0]) <==> Sdi(g, Fat(g, v), s[0], 2).At? && !HasEntry(g, v, s[0], 2)
  {
    hide ReadsTo, HasEntry, Fat, Sdi;
    if IsVacant(g, v, s[0]) {
      VacantHasNone(g, v, s[0]);
    } else if Sdi(g, Fat(g, v), s[0], 2).At? && !HasEntry(g, v, s[0], 2) {
      EndsFrom(g, v, s, 2, 2);
    }
  }

  lemma EndsFrom(g: Geometry, v: Image, s: seq<nat>, i: nat, j: nat)
    requires Holds(g, v) && IsChain(Fat(g, v), s) && i <= j < 0x1_0000
    requires Sdi(g, Fat(g, v), s[0], j).At? && !HasEntry(g, v, s[0], i)
    requires forall k :: i <= k < j ==> IsEntry(g, v, s[0], k, false)
    ensures exists k: nat :: ReadsTo(g, v, s[0], i, k, NoFile)
    decreases 0x1_0000 - j
  {
    hide Fat, Sdi, Next, IsLive, HasEntry, SoundLayout, Follows;
    var f := Fat(g, v);
    var p := Sdi(g, f, s[0], j).place;
    PlaceIsOutsideFat(g, f, s[0], j);
    StepIsNext(g, f, s[0], j);
    LinksLeadOn(g, f, s, j);
    if v[p.sect][p.dir] == 0 || (!IsLive(v[p.sect], p.dir) && Next(g, f, p).Stop?) {
      assert ReadsTo(g, v, s[0], i, j, NoFile);
    } else if IsLive(v[p.sect], p.dir) {
      assert ReadsTo(g, v, s[0], i, j, Ok);
      ReadsToEntry(g, v, s[0], i, j, Ok);
    } else {
      assert IsEntry(g, v, s[0], j, false);
      EndsFrom(g, v, s, i, j + 1);
    }
  }

  // Stepping along a chain in order finds no broken link.
  lemma LinksLeadOn(g: Geometry, f: seq<nat>, s: seq<nat>, j: nat)
    requires |f| == g.nFatent && IsChain(f, s) && Sdi(g, f, s[0], j).At?
    ensures Next(g, f, Sdi(g, f, s[0], j).place) != Stop(IntErr)
  {
    hide SoundLayout, ClusterIndex, SectorIndex, ClustToSect, Nth;
    var k := ClusterIndex(g, j / PER_SECTOR);
    ChainIsUsed(f, s, 0);
    ChainIsTable(f, s);
    NthOfTable(f, s, k);
    HasSector(g, Nth(f, s[0], k));
    assert Follows(f, s, k);
    if k + 1 < |s| {
      ChainIsUsed(f, s, k + 1);
    }
  }

  // Its chain can be removed, and that many clusters become free.
  lemma ChainIsRemovable(f: seq<nat>, s: seq<nat>)
    requires IsChain(f, s)
    ensures Removable(f, s[0]) && FreedBy(f, s[0]) == |s|
  {
    hide FreeCount;
    ChainIsUsed(f, s, 0);
    WalkFreesChain(f, s);
    FreeCountOfFreed(f, s);
  }

  // The tests that f_unlink makes before it deletes an entry.
  method CheckEntry(dp: Dir, attr: int, dclst: u32, cdir: u32) returns (res: FResult)
    requires dp.fs.Valid()
    modifies dp.fs`wflag, dp.fs`winsect, dp.fs.win, dp.fs.disk
    ensures dp.fs.Valid() && Quiet(old(dp.fs.Now()), dp.fs.Now())
    ensures res == Ok || res == Denied || res == IntErr || (res == DiskErr && !dp.fs.disk.reliable)
    ensures res != DiskErr ==>
      && (res == Denied <==> IsRefused(dp.fs.geo, old(dp.fs.View()), attr, dclst, cdir))
      && (res == Ok <==> MayGo(dp.fs.geo, old(dp.fs.View()), attr, dclst, cdir))
    ensures attr % 2 == 1 || (dclst != 0 && attr / 0x10 % 2 == 1 && dclst == cdir) ==>
      res == Denied && dp.fs.Now() == old(dp.fs.Now())
  {
    hide Fat, Logical, Undisturbed, Reached, HasEntry, IsVacant;
    QuietRefl(dp.fs.Now());
    res := Ok;
    if attr % 2 == 1 {
      res := Denied;
    } else if dclst != 0 && attr / 0x10 % 2 == 1 {
      if dclst == cdir {
        res := Denied;
      } else {
        res := Vacant(dp, dclst);
      }
    }
  }

  // f_unlink once the path has been followed: dp is at the entry and the window shows it, unless the
  // path is that of the origin directory, which has none. cdir is the current directory of the volume.
  // On a device without errors it succeeds exactly when nothing forbids deleting the entry, the entry
  // can be found, and its chain removed.
  method Unlink(dp: Dir, origin: bool, cdir: u32) returns (res: FResult)
    requires dp.fs.Valid() && dp.index < 0x1_0000 && dp.dir + SZ_DIRE <= SS
    modifies dp`index, dp`clust, dp`sect, dp`dir, dp.fs`wflag, dp.fs`winsect, dp.fs`freeClust, dp.fs`fsiFlag,
             dp.fs.win, dp.fs.disk
    ensures dp.fs.win.Length == SS && (InfoIsInFat(dp.fs.geo) || dp.fs.Valid())
    ensures var s, t, g := old(dp.fs.Now()), dp.fs.Now(), dp.fs.geo;
      var sdi, dclst := Sdi(g, Fat(g, Logical(s)), dp.sclust, old(dp.index)), old(LdClust(g, dp.fs.win[..], dp.dir));
      if sdi.Stop? then res != Ok && Quiet(s, t)
      else
        && sdi.place.sect < |s.data| && sdi.place.dir + SZ_DIRE <= SS
        && (!InfoIsInFat(g) ==> Unlinking(s, t, sdi.place, dclst, res == Ok))
        && Deleted(s, t, sdi.place, dclst, res == Ok, FsInfoSector(dp.fs.freeClust, dp.fs.lastClust))
    ensures origin ==> res == InvalidName && dp.fs.Now() == old(dp.fs.Now())
    ensures var v, g, attr := old(dp.fs.View()), dp.fs.geo, old(dp.fs.win[dp.dir + 11]) as int;
      var dclst := old(LdClust(g, dp.fs.win[..], dp.dir));
      !origin ==>
      && (attr % 2 == 1 || (dclst != 0 && attr / 0x10 % 2 == 1 && dclst == cdir) ==> dp.fs.Now() == old(dp.fs.Now()))
      && (!MayGo(g, v, attr, dclst, cdir) ==> Quiet(old(dp.fs.Now()), dp.fs.Now()) && res != Ok)
      && (res == Denied ==> IsRefused(g, v, attr, dclst, cdir))
      && (var sdi := Sdi(g, Fat(g, v), dp.sclust, old(dp.index));
          MayGo(g, v, attr, dclst, cdir) && sdi.At? && res != DiskErr && !InfoIsInFat(g) ==>
            Unlinking(old(dp.fs.Now()), dp.fs.Now(), sdi.place, dclst, true))
      && (dp.fs.disk.reliable ==>
        && (res == Denied <==> IsRefused(g, v, attr, dclst, cdir))
        && (res == Ok <==> MayGo(g, v, attr, dclst, cdir) && Removable(Fat(g, v), dclst) &&
                           Sdi(g, Fat(g, v), dp.sclust, old(dp.index)).At?)
        && (res == Ok || res == Denied || res == IntErr))
    ensures res == Ok ==> !dp.fs.wflag && dp.fs.disk.settled == |dp.fs.disk.history|
    ensures res == Ok ==>
      var f, dclst := Fat(dp.fs.geo, old(dp.fs.View())), old(LdClust(dp.fs.geo, dp.fs.win[..], dp.dir));
      && CountedFreed(old(dp.fs.freeClust), dp.fs.freeClust, FreedBy(f, dclst))
      && (InfoChanges(dp.fs.geo, f, old(dp.fs.Kept()), dclst) && dp.fs.disk.reliable ==>
            && dp.fs.geo.volbase + 1 < |dp.fs.disk.data|
            && SpellsInfo(dp.fs.disk.data[dp.fs.geo.volbase + 1], dp.fs.freeClust, dp.fs.lastClust))
  {
    hide Fat, Logical, Reached, Undisturbed, Sdi, FsInfoSector, Unlinking, HasEntry, Deleted, MayGo, IsRefused, LdClust,
         Removable, CountedFreed, FreedBy, SpellsInfo, InfoChanges;
    var fs := dp.fs;
    ghost var s := fs.Now();
    ghost var sdi := Sdi(fs.geo, Fat(fs.geo, fs.View()), dp.sclust, dp.index);
    var attr := fs.win[dp.dir + ATTR] as int;
    var dclst := LdClust(fs.geo, fs.win[..], dp.dir);
    QuietRefl(s);
    GoingIsNotRefused(fs.geo, Logical(s), attr, dclst, cdir);
    if origin {
      res := InvalidName;
    } else {
      res := CheckEntry(dp, attr, dclst, cdir);
    }
    ghost var u := fs.Now();
    QuietKeepsView(s, u);
    QuietIsSound(s, u);
    if sdi.At? {
      PlaceIsOutsideFat(fs.geo, Fat(fs.geo, Logical(s)), dp.sclust, dp.index);
      NothingUnlinked(s, u, sdi.place, dclst);
      UnlinkingIsDeleting(s, u, sdi.place, dclst, false, FsInfoSector(fs.freeClust, fs.lastClust));
    }
    if res == Ok {
      res := RemoveEntry(dp, dclst);
      AfterChecks(s, u, fs.Now(), sdi, dclst, res, FsInfoSector(fs.freeClust, fs.lastClust));
    }
  }

  // What has been deleted after the window has moved, and what has not.
  lemma AfterChecks(s: State, u: State, t: State, sdi: Found, dclst: nat, res: FResult, w: Sector)
    requires Sound(s) && Sound(u) && |u.data| == |s.data| && u.geo == s.geo && Quiet(s, u)
    requires if sdi.Stop? then res != Ok && Quiet(u, t)
      else
        && sdi.place.sect < |s.data| && sdi.place.dir + SZ_DIRE <= SS
        && (!InfoIsInFat(s.geo) ==> Unlinking(u, t, sdi.place, dclst, res == Ok || res == IntErr))
        && Deleted(u, t, sdi.place, dclst, res == Ok, w)
    ensures if sdi.Stop? then Quiet(s, t)
      else
        && (!InfoIsInFat(s.geo) ==>
              Unlinking(s, t, sdi.place, dclst, res == Ok) && Unlinking(s, t, sdi.place, dclst, res == Ok || res == IntErr))
        && Deleted(s, t, sdi.place, dclst, res == Ok, w)
  {
    hide Fat, Logical, Reached, Undisturbed, Unlinking, Deleted;
    if sdi.At? {
      DeletedAfter(s, u, t, sdi.place, dclst, res == Ok, w);
      if !InfoIsInFat(s.geo) {
        UnlinkingAfter(s, u, t, sdi.place, dclst, res == Ok || res == IntErr);
        if res == IntErr {
          UnlinkingWeakens(s, t, sdi.place, dclst);
        }
      }
    } else {
      QuietCompose(s, u, t);
    }
  }

  lemma UnlinkingIsDeleting(s: State, t: State, p: Place, dclst: nat, done: bool, w: Sector)
    requires Sound(s) && p.sect < |s.data| && p.dir + SZ_DIRE <= SS && Unlinking(s, t, p, dclst, done)
    ensures Deleted(s, t, p, dclst, done, w)
  {
  }

  // remove_chain takes dclst, or has nothing to do.
  ghost predicate Removable(f: seq<nat>, dclst: nat) {
    dclst == 0 || (2 <= dclst < |f| && Walk(f, dclst).ok)
  }

  // The number of clusters that remove_chain frees.
  ghost function FreedBy(f: seq<nat>, dclst: nat): int {
    if dclst >= 2 then FreeCount(Walk(f, dclst).f) - FreeCount(f) else 0
  }

  // The free count goes with them, when it is known and fits 32 bits.
  ghost predicate CountedFreed(free: nat, after: nat, freed: int) {
    && freed >= 0 && (free == ALL_ONES ==> after == ALL_ONES)
    && (free + freed < ALL_ONES ==> after == free + freed)
  }

  lemma MarkingKeepsFat(s: State, t: State, p: Place)
    requires Sound(s) && p.sect < |s.data| && p.dir + SZ_DIRE <= SS && EntryMarked(s, t, p) && !InFat(s.geo, p.sect)
    ensures Fat(t.geo, Logical(t)) == Fat(s.geo, Logical(s)) && t.reliable == s.reliable
  {
    hide Fat, Logical, Marked, Reached, SoundLayout;
    StepsKeep(s, t, iset{Logical(s)});
    AreasInOrder(s.geo);
    forall j | InFat(s.geo, j)
      ensures AgreeAt(Logical(s), Logical(t), j)
    {
    }
    FatElsewhere(s.geo, Logical(s), Logical(t));
  }

  // What remove_chain has done to the table, and so to the number of free clusters.
  lemma RemovedFrees(t: State, u: State, dclst: nat, res: FResult)
    requires Sound(t) && Freeing.Removed(t, u, dclst, res) && dclst != 0
    ensures res != DiskErr ==> Sound(u) && u.geo == t.geo
    ensures res != DiskErr ==>
      FreeCount(Fat(u.geo, Logical(u))) - FreeCount(Fat(t.geo, Logical(t))) == FreedBy(Fat(t.geo, Logical(t)), dclst)
    ensures res == Ok || res == IntErr || (res == DiskErr && !t.reliable)
    ensures res != DiskErr ==> (res == Ok <==> Removable(Fat(t.geo, Logical(t)), dclst))
    ensures 2 <= dclst < t.geo.nFatent && res != DiskErr ==> u.reliable == t.reliable
  {
    hide Fat, Logical, FreeCount;
    if dclst >= 2 {
      Freeing.FreedImageWalks(t.geo, Logical(t), dclst);
    }
  }

  lemma CountOfFreed(c: Counters, d: Counters, freed: int)
    requires if c.free == ALL_ONES then d == c && freed >= 0 else Freeing.FreedCounted(c, d, freed)
    ensures CountedFreed(c.free, d.free, freed) && d.last == c.last
    ensures c.free + freed < ALL_ONES && freed > 0 && c.free != ALL_ONES ==> d.flag == Flagged(c.flag)
  {
  }

  lemma {:induction false} WalkFreesSome(f: seq<nat>, c: nat)
    requires c >= 2
    ensures FreeCount(Walk(f, c).f) >= FreeCount(f)
    decreases UsedSet(f)
  {
    hide FreeFrom;
    if IsCluster(f, c) && f[c] > 1 {
      UsedShrinks(f, c);
      FreeFromOfUpdate(f, 2, c, 0);
      WalkFreesSome(f[c := 0], f[c]);
    }
  }

  // The second step of deleting: the chain, if there is one.
  method RemoveClusters(fs: Fatfs, dclst: u32, ghost s: State, ghost p: Place) returns (res: FResult)
    requires fs.Valid() && Sound(s) && s.geo == fs.geo && s.reliable == fs.disk.reliable
    requires p.sect < |s.data| && p.dir + SZ_DIRE <= SS && !InFat(s.geo, p.sect) && EntryMarked(s, fs.Now(), p)
    modifies fs`wflag, fs`winsect, fs`freeClust, fs`fsiFlag, fs.win, fs.disk
    ensures fs.Valid() && (res == Ok || res == IntErr || (res == DiskErr && !fs.disk.reliable))
    ensures res != DiskErr ==> (res == Ok <==> Removable(Fat(s.geo, Logical(s)), dclst))
    ensures Unlinking(s, fs.Now(), p, dclst, res != DiskErr)
    ensures var freed := FreedBy(Fat(s.geo, Logical(s)), dclst);
      res != DiskErr ==>
        && CountedFreed(old(fs.freeClust), fs.freeClust, freed)
        && (old(fs.freeClust) + freed < ALL_ONES && freed > 0 ==> fs.fsiFlag == Flagged(old(fs.fsiFlag)))
  {
    hide Fat, Logical, Erased, Reached, Freeing.Removed, Marked, Unlinking, EntryMarked, Removable, FreedBy, CountedFreed,
         Freeing.FreedCounted, FreeCount;
    ghost var t, c := fs.Now(), fs.Kept();
    MarkingKeepsFat(s, t, p);
    OnlyMarked(s, t, p, dclst);
    res := Ok;
    if dclst != 0 {
      res := Freeing.RemoveChain(fs, dclst);
      MarkedThenFreed(s, t, fs.Now(), p, dclst, res);
      RemovedFrees(t, fs.Now(), dclst, res);
      FreedIsSome(Fat(s.geo, Logical(s)), dclst);
    } else {
      NoneFreed(Fat(s.geo, Logical(s)));
      Freeing.NoneCounted(c);
    }
    if res != DiskErr {
      CountOfFreed(c, fs.Kept(), FreedBy(Fat(s.geo, Logical(s)), dclst));
    }
  }

  lemma FreedIsSome(f: seq<nat>, dclst: nat)
    ensures FreedBy(f, dclst) >= 0
  {
    if dclst >= 2 {
      WalkFreesSome(f, dclst);
    }
  }

  lemma NoneFreed(f: seq<nat>)
    ensures FreedBy(f, 0) == 0 && Removable(f, 0)
  {
  }

  // dir_remove, remove_chain and sync_fs, one after the other as long as they succeed. On a device
  // without errors that is as long as the entry can be found and its chain removed.
  method RemoveEntry(dp: Dir, dclst: u32) returns (res: FResult)
    requires dp.fs.Valid() && dp.index < 0x1_0000
    modifies dp`index, dp`clust, dp`sect, dp`dir, dp.fs`wflag, dp.fs`winsect, dp.fs`freeClust, dp.fs`fsiFlag,
             dp.fs.win, dp.fs.disk
    ensures dp.fs.win.Length == SS && (InfoIsInFat(dp.fs.geo) || dp.fs.Valid())
    ensures var s, t, g := old(dp.fs.Now()), dp.fs.Now(), dp.fs.geo;
      var sdi := Sdi(g, Fat(g, Logical(s)), dp.sclust, old(dp.index));
      if sdi.Stop? then res != Ok && Quiet(s, t)
      else
        && sdi.place.sect < |s.data| && sdi.place.dir + SZ_DIRE <= SS
        && (!InfoIsInFat(g) ==> Unlinking(s, t, sdi.place, dclst, res == Ok || res == IntErr))
        && Deleted(s, t, sdi.place, dclst, res == Ok, FsInfoSector(dp.fs.freeClust, dp.fs.lastClust))
    ensures res == Ok || res == IntErr || (res == DiskErr && !dp.fs.disk.reliable)
    ensures dp.fs.disk.reliable ==>
      var g, f := dp.fs.geo, Fat(dp.fs.geo, old(dp.fs.View()));
      res == Ok <==> Sdi(g, f, dp.sclust, old(dp.index)).At? && Removable(f, dclst)
    ensures res == Ok ==> !dp.fs.wflag && dp.fs.disk.settled == |dp.fs.disk.history|
    ensures res == Ok ==>
      var f := Fat(dp.fs.geo, old(dp.fs.View()));
      && CountedFreed(old(dp.fs.freeClust), dp.fs.freeClust, FreedBy(f, dclst))
      && (InfoChanges(dp.fs.geo, f, old(dp.fs.Kept()), dclst) && dp.fs.disk.reliable ==>
            && dp.fs.geo.volbase + 1 < |dp.fs.disk.data|
            && SpellsInfo(dp.fs.disk.data[dp.fs.geo.volbase + 1], dp.fs.freeClust, dp.fs.lastClust))
  {
    hide Fat, Logical, Erased, Reached, Undisturbed, Sdi, Freeing.Removed, FsInfoSector, Marked, Unlinking, EntryMarked, Removable,
         CountedFreed, SpellsInfo, FreedBy, OnlyInfo;
    var fs := dp.fs;
    ghost var s := fs.Now();
    ghost var sdi := Sdi(fs.geo, Fat(fs.geo, fs.View()), dp.sclust, dp.index);
    SdiResult(fs.geo, Fat(fs.geo, fs.View()), dp.sclust, dp.index);
    if sdi.At? {
      PlaceIsOutsideFat(fs.geo, Fat(fs.geo, fs.View()), dp.sclust, dp.index);
    }
    res := DirRemove(dp);
    ghost var t := fs.Now();
    if res != Ok {
      if sdi.At? {
        NothingUnlinked(s, t, sdi.place, dclst);
      }
      return;
    }
    res := RemoveClusters(fs, dclst, s, sdi.place);
    ghost var u := fs.Now();
    if res != DiskErr {
      UnlinkingWeakens(s, u, sdi.place, dclst);
    }
    if res == Ok {
      res := SyncFs(fs);
      if Quiet(u, fs.Now()) {
        UnlinkingSettles(s, u, fs.Now(), sdi.place, dclst, true);
        UnlinkingWeakens(s, fs.Now(), sdi.place, dclst);
      }
    }
  }

  // FSINFO has to be brought up to date: the free count is known and has changed.
  ghost predicate InfoChanges(g: Geometry, f: seq<nat>, c: Counters, dclst: nat) {
    g.fsType == FAT32 && c.flag <= 1 && FreedBy(f, dclst) > 0 && c.free + FreedBy(f, dclst) < ALL_ONES
  }

  lemma UnlinkingWeakens(s: State, t: State, p: Place, dclst: nat)
    requires Sound(s) && p.sect < |s.data| && p.dir + SZ_DIRE <= SS && Unlinking(s, t, p, dclst, true)
    ensures Unlinking(s, t, p, dclst, false)
  {
    hide Fat, Erased, Logical, UnlinkViews, UnlinkedImage;
  }
}
