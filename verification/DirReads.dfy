// dir_read for files and directories: finding the next entry of a table that is in use.
module DirReads {
  import opened Volume
  import opened Window
  import opened FatTable
  import opened DirTable
  import opened Directory

  const ATTR := 11           // byte offset of the attributes in an entry
  const AM_LFN := 0x0F
  const AM_VOL := 0x08

  // The entry at p is neither deleted nor part of a long name nor a volume label.
  predicate IsLive(w: Sector, o: nat)
    requires o + SZ_DIRE <= SS
  {
    var a := w[o + ATTR] as int % 0x40;
    w[o] != DDEM && a != AM_LFN && a % 0x20 != AM_VOL
  }

  // In terms of the attribute bits.
  lemma LiveBits(w: Sector, o: nat, readOnly: bool, hidden: bool, system: bool, volume: bool, directory: bool, archive: bool)
    requires o + SZ_DIRE <= SS
    requires w[o + 11] as int % 0x40 == Bit(readOnly, 1) + Bit(hidden, 2) + Bit(system, 4) + Bit(volume, 8) +
                                 Bit(directory, 0x10) + Bit(archive, 0x20)
    ensures IsLive(w, o) <==>
      && w[o] != 0xE5
      && !(readOnly && hidden && system && volume && !directory && !archive)   // part of a long name
      && !(volume && !readOnly && !hidden && !system && !directory)            // volume label
  {
  }

  function Bit(on: bool, value: nat): nat {
    if on then value else 0
  }

  // The table of sclust has an entry k, and it does not end the table; live says what it is.
  predicate IsEntry(g: Geometry, v: Image, sclust: nat, k: nat, live: bool)
    requires Holds(g, v)
  {
    var sdi := Sdi(g, Fat(g, v), sclust, k);
    && sdi.At? && sdi.place.sect < |v| && sdi.place.dir + SZ_DIRE <= SS
    && v[sdi.place.sect][sdi.place.dir] != 0 && IsLive(v[sdi.place.sect], sdi.place.dir) == live
  }

  // From entry i on the table of sclust has one in use, before its end and within 16 bits.
  ghost predicate HasEntry(g: Geometry, v: Image, sclust: nat, i: nat)
    requires Holds(g, v)
  {
    exists j: nat :: i <= j < 0x1_0000 && IsEntry(g, v, sclust, j, true)
      && forall k :: i <= k < j ==> IsEntry(g, v, sclust, k, false)
  }

  // dir_read ends at entry j of the table with this result: the entry is in use, or it ends the table, or
  // it is the last one.
  predicate StopsAt(g: Geometry, v: Image, sclust: nat, j: nat, res: FResult)
    requires Holds(g, v)
  {
    var sdi := Sdi(g, Fat(g, v), sclust, j);
    && sdi.At? && sdi.place.sect < |v| && sdi.place.dir + SZ_DIRE <= SS
    && if v[sdi.place.sect][sdi.place.dir] == 0 then res == NoFile
       else if IsLive(v[sdi.place.sect], sdi.place.dir) then res == Ok
       else Next(g, Fat(g, v), sdi.place) == Stop(res)
  }

  // From entry i on it ends at entry j, the first at which it can.
  ghost predicate ReadsTo(g: Geometry, v: Image, sclust: nat, i: nat, j: nat, res: FResult)
    requires Holds(g, v)
  {
    && i <= j < 0x1_0000 && StopsAt(g, v, sclust, j, res)
    && forall k :: i <= k < j ==> IsEntry(g, v, sclust, k, false)
  }

  // There is one such end.
  lemma ReadsOnce(g: Geometry, v: Image, sclust: nat, i: nat, j: nat, res: FResult, k: nat, end: FResult)
    requires Holds(g, v) && ReadsTo(g, v, sclust, i, j, res) && ReadsTo(g, v, sclust, i, k, end)
    ensures j == k && res == end
  {
    hide Fat, Sdi, Next, IsLive;
    if j < k {
      StopsOrLeadsOn(g, v, sclust, i, j, res, k, end);
    } else if k < j {
      StopsOrLeadsOn(g, v, sclust, i, k, end, j, res);
    }
  }

  lemma StopsOrLeadsOn(g: Geometry, v: Image, sclust: nat, i: nat, j: nat, res: FResult, k: nat, end: FResult)
    requires Holds(g, v) && ReadsTo(g, v, sclust, i, j, res) && ReadsTo(g, v, sclust, i, k, end)
    ensures j >= k
  {
    hide Fat, Sdi, Next, IsLive;
    if j < k {
      assert IsEntry(g, v, sclust, j, false);
      assert j + 1 < k ==> IsEntry(g, v, sclust, j + 1, false);
      StepIsNext(g, Fat(g, v), sclust, j);
    }
  }

  // It finds an entry in use exactly when there is one.
  lemma ReadsToEntry(g: Geometry, v: Image, sclust: nat, i: nat, j: nat, res: FResult)
    requires Holds(g, v) && ReadsTo(g, v, sclust, i, j, res)
    ensures res == Ok <==> HasEntry(g, v, sclust, i)
  {
    hide Fat, Sdi, IsLive;
    if res == Ok {
      StepIsNext(g, Fat(g, v), sclust, j);
      assert IsEntry(g, v, sclust, j, true);
    } else if HasEntry(g, v, sclust, i) {
      var k: nat :| i <= k < 0x1_0000 && IsEntry(g, v, sclust, k, true)
        && forall l :: i <= l < k ==> IsEntry(g, v, sclust, l, false);
      assert ReadsTo(g, v, sclust, i, k, Ok);
      ReadsOnce(g, v, sclust, i, j, res, k, Ok);
    }
  }

  lemma StepIsNext(g: Geometry, f: seq<nat>, sclust: nat, i: nat)
    requires |f| == g.nFatent && i < 0x1_0000 && Sdi(g, f, sclust, i).At?
    ensures Sdi(g, f, sclust, i).place.index == i
    ensures var next := Next(g, f, Sdi(g, f, sclust, i).place);
      if next.At? then i + 1 < 0x1_0000 && next == Sdi(g, f, sclust, i + 1) && next.place.index == i + 1
      else (next.res == NoFile || next.res == IntErr) && (i + 1 < 0x1_0000 ==> Sdi(g, f, sclust, i + 1).Stop?)
  {
    hide SoundLayout, ClustToSect, Nth, ClusterIndex, SectorIndex;
    if i + 1 < 0x1_0000 {
      SdiSteps(g, f, sclust, i + 1);
    }
  }

  // Nothing is found when the table ends at entry i, or behind it.
  lemma NoneFound(g: Geometry, v: Image, sclust: nat, first: nat, i: nat)
    requires Holds(g, v) && first <= i
    requires forall k :: first <= k < i ==> IsEntry(g, v, sclust, k, false)
    requires !(i < 0x1_0000 && (IsEntry(g, v, sclust, i, true) || IsEntry(g, v, sclust, i, false)))
    ensures !HasEntry(g, v, sclust, first)
  {
    hide Fat, Sdi, IsEntry;
    if HasEntry(g, v, sclust, first) {
      var j: nat :| first <= j < 0x1_0000 && IsEntry(g, v, sclust, j, true)
        && forall k :: first <= k < j ==> IsEntry(g, v, sclust, k, false);
      if j < i {
        OneOrTheOther(g, v, sclust, j);
      }
    }
  }

  lemma OneOrTheOther(g: Geometry, v: Image, sclust: nat, k: nat)
    requires Holds(g, v) && IsEntry(g, v, sclust, k, true)
    ensures !IsEntry(g, v, sclust, k, false)
  {
  }

  // dir_read, from the entry that the directory object is at: it ends at entry j, the first in use if
  // there is one, and the directory object is then there.
  method DirRead(dp: Dir) returns (res: FResult, ghost j: nat)
    requires dp.fs.Valid() && dp.index < 0x1_0000
    requires Sdi(dp.fs.geo, Fat(dp.fs.geo, dp.fs.View()), dp.sclust, dp.index) == At(dp.Here())
    modifies dp`index, dp`clust, dp`sect, dp`dir, dp.fs`wflag, dp.fs`winsect, dp.fs.win, dp.fs.disk
    ensures dp.fs.Valid() && Quiet(old(dp.fs.Now()), dp.fs.Now())
    ensures res == Ok || res == NoFile || res == IntErr || (res == DiskErr && !dp.fs.disk.reliable)
    ensures res != DiskErr ==> ReadsTo(dp.fs.geo, old(dp.fs.View()), dp.sclust, old(dp.index), j, res)
    ensures res == Ok ==>
      Sdi(dp.fs.geo, Fat(dp.fs.geo, old(dp.fs.View())), dp.sclust, j) == At(dp.Here()) && dp.fs.winsect == dp.sect
    ensures res != Ok ==> dp.sect == 0
    ensures res != DiskErr ==> (res == Ok <==> HasEntry(dp.fs.geo, old(dp.fs.View()), dp.sclust, old(dp.index)))
  {
    hide Fat, Undisturbed, Reached, Logical, SoundLayout, Sdi, Next, HasEntry;
    var fs := dp.fs;
    ghost var s, v, f, first := fs.Now(), fs.View(), Fat(fs.geo, fs.View()), dp.index;
    QuietRefl(s);
    res, j := NoFile, first;
    AreasInOrder(fs.geo);
    PlaceIsOutsideFat(fs.geo, f, dp.sclust, first);
    while dp.sect != 0
      invariant dp.sect != 0
      invariant fs.Valid() && Quiet(s, fs.Now()) && fs.View() == v
      invariant first <= dp.index < 0x1_0000 && Sdi(fs.geo, f, dp.sclust, dp.index) == At(dp.Here())
      invariant forall k :: first <= k < dp.index ==> IsEntry(fs.geo, v, dp.sclust, k, false)
      decreases 0x1_0000 - dp.index
    {
      PlaceIsOutsideFat(fs.geo, f, dp.sclust, dp.index);
      ghost var t := fs.Now();
      j := dp.index;
      res := MoveWindow(fs, dp.sect);
      QuietCompose(s, t, fs.Now());
      QuietKeepsView(t, fs.Now());
      if res != Ok {
        break;
      }
      if fs.win[dp.dir] == 0 {
        res := NoFile;
        assert StopsAt(fs.geo, v, dp.sclust, j, res);
        break;
      }
      if IsLive(fs.win[..], dp.dir) {
        assert StopsAt(fs.geo, v, dp.sclust, j, res);
        break;
      }
      ghost var u := fs.Now();
      assert IsEntry(fs.geo, v, dp.sclust, j, false);
      StepIsNext(fs.geo, f, dp.sclust, j);
      res := DirNext(dp);
      QuietCompose(s, u, fs.Now());
      QuietKeepsView(u, fs.Now());
      if res != Ok {
        assert res != DiskErr ==> StopsAt(fs.geo, v, dp.sclust, j, res);
        break;
      }
      PlaceIsOutsideFat(fs.geo, f, dp.sclust, j + 1);
    }
    if res != Ok {
      dp.sect := 0;
    }
    if res != DiskErr {
      ReadsToEntry(fs.geo, v, dp.sclust, first, j, res);
    }
  }
}
