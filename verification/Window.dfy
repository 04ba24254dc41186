// sync_window and move_window: the one-sector window between FatFs and the disk.
module Window {
  import opened Words
  import opened Volume

  // From s to t no sector of the disk has changed but that of a dirty window, and its copy in the second
  // FAT, which now hold what the window held.
  ghost predicate OnlyWindow(s: State, t: State, i: int)
    requires 0 <= i < |s.data| == |t.data|
  {
    t.data[i] == s.data[i] ||
    (s.wflag && t.data[i] == s.win &&
     (i == s.winsect || (s.geo.nFats == 2 && InFat(s.geo, s.winsect) && i == s.winsect + s.geo.fsize)))
  }

  ghost predicate WrittenBack(s: State, t: State) {
    |t.data| == |s.data| && forall i :: 0 <= i < |s.data| ==> OnlyWindow(s, t, i)
  }

  lemma FlushWritesBack(s: State, copied: bool)
    requires Sound(s) && s.wflag && (copied ==> s.geo.nFats == 2 && InFat(s.geo, s.winsect))
    ensures WrittenBack(s, Flushed(s, copied)) && Flushed(s, copied).data[s.winsect] == s.win
  {
  }

  lemma NothingWrittenBack(s: State, t: State)
    requires t.data == s.data
    ensures WrittenBack(s, t)
  {
  }

  // What sync_window leaves behind once it has written the window to its own sector: copied says
  // whether the mirror sector has been written too.
  ghost function Flushed(s: State, copied: bool): (t: State)
    requires Sound(s) && s.wflag
  {
    var d := s.data[s.winsect := s.win];
    var m := s.winsect + s.geo.fsize;
    var t := s.(wflag := false, data := d, history := s.history + [d]);
    if copied && m < |d| then t.(data := d[m := s.win], history := t.history + [d[m := s.win]]) else t
  }

  lemma FlushIsQuiet(s: State, copied: bool)
    requires Sound(s) && s.wflag
    requires copied ==> s.geo.nFats == 2 && InFat(s.geo, s.winsect)
    requires s.reliable ==> copied == (s.geo.nFats == 2 && InFat(s.geo, s.winsect))
    ensures Sound(Flushed(s, copied)) && Quiet(s, Flushed(s, copied))
  {
    var d := s.data[s.winsect := s.win];
    if copied {
      AreasInOrder(s.geo);
      VisibleUpdate(s.geo, d, s.winsect + s.geo.fsize, s.win);
    }
    if s.reliable && Mirrored(s) {
      FlushMirrors(s, copied);
    }
  }

  lemma FlushMirrors(s: State, copied: bool)
    requires Sound(s) && s.wflag && Mirrored(s)
    requires copied <==> s.geo.nFats == 2 && InFat(s.geo, s.winsect)
    ensures Mirrored(Flushed(s, copied))
  {
    var t := Flushed(s, copied);
    AreasInOrder(s.geo);
    forall i | InFat(s.geo, i) && s.geo.nFats == 2
      ensures IsCopied(t, i)
    {
      if i != s.winsect {
        assert IsCopied(s, i);
      }
    }
  }

  // Reflects the change of a FAT sector to the FAT copies; whether a copy could be written does
  // not matter to the caller.
  method WriteCopies(fs: Fatfs, ghost s: State) returns (ghost copied: bool)
    requires Sound(s) && s.wflag
    requires fs.win.Length == SS && fs.Now() == Flushed(s, false)
    requires InFat(s.geo, s.winsect)
    modifies fs.disk
    ensures fs.Now() == Flushed(s, copied)
    ensures copied ==> s.geo.nFats == 2
    ensures fs.disk.reliable && s.geo.nFats == 2 ==> copied
  {
    AreasInOrder(s.geo);
    copied := false;
    var wsect := fs.winsect;
    var nf := fs.geo.nFats;
    while nf >= 2
      invariant nf >= 2 ==> nf == 2 == fs.geo.nFats && wsect == fs.winsect && !copied
      invariant fs.Now() == Flushed(s, copied)
      invariant copied ==> s.geo.nFats == 2
      invariant fs.disk.reliable && nf < 2 && s.geo.nFats == 2 ==> copied
    {
      wsect := wsect + fs.geo.fsize;
      copied := fs.disk.Write(fs.win, wsect);
      nf := nf - 1;
    }
  }

  method SyncWindow(fs: Fatfs) returns (res: FResult)
    requires fs.Valid()
    modifies fs`wflag, fs.disk
    ensures fs.Valid() && Quiet(old(fs.Now()), fs.Now())
    ensures res == Ok || res == DiskErr
    ensures res == Ok <==> !fs.wflag
    ensures res == DiskErr ==> fs.Now() == old(fs.Now()) && !fs.disk.reliable
    ensures WrittenBack(old(fs.Now()), fs.Now()) && (!old(fs.wflag) ==> fs.Now() == old(fs.Now()))
    ensures res == Ok && old(fs.wflag) ==> fs.winsect < |fs.disk.data| && fs.disk.data[fs.winsect] == fs.win[..]
  {
    hide Logical, Visible, Reached, Undisturbed, WrittenBack;
    res := Ok;
    ghost var s := fs.Now();
    QuietRefl(s);
    NothingWrittenBack(s, s);
    if fs.wflag {
      var wsect := fs.winsect;
      var ok := fs.disk.Write(fs.win, wsect);
      if !ok {
        res := DiskErr;
      } else {
        fs.wflag := false;
        ghost var copied := false;
        if Wrap32(wsect - fs.geo.fatbase) < fs.geo.fsize {   // is it in the FAT area?
          copied := WriteCopies(fs, s);
        }
        FlushIsQuiet(s, copied);
        FlushWritesBack(s, copied);
      }
    }
  }

  lemma LoadIsQuiet(s: State, win: Sector, sector: u32)
    requires Sound(s) && !s.wflag
    requires sector == ALL_ONES || (sector < |s.data| && win == s.data[sector])
    ensures Sound(s.(win := win, winsect := sector)) && Quiet(s, s.(win := win, winsect := sector))
  {
  }

  lemma SameWrittenBack(s: State, t: State, u: State)
    requires WrittenBack(s, t) && u.data == t.data
    ensures WrittenBack(s, u)
  {
    forall i | 0 <= i < |s.data|
      ensures OnlyWindow(s, u, i)
    {
      assert OnlyWindow(s, t, i);
    }
  }

  method MoveWindow(fs: Fatfs, sector: u32) returns (res: FResult)
    requires fs.Valid()
    requires sector < |fs.disk.data| && !IsHidden(fs.geo, sector)
    modifies fs`wflag, fs`winsect, fs.win, fs.disk
    ensures fs.Valid() && Quiet(old(fs.Now()), fs.Now())
    ensures res == Ok || res == DiskErr
    ensures res == Ok ==> fs.winsect == sector && fs.win[..] == fs.View()[sector]
    ensures res == DiskErr ==> !fs.disk.reliable && (fs.winsect == old(fs.winsect) || fs.winsect == ALL_ONES)
    ensures sector == old(fs.winsect) ==> fs.Now() == old(fs.Now())
    ensures WrittenBack(old(fs.Now()), fs.Now())
  {
    hide WrittenBack;
    res := Ok;
    NothingWrittenBack(fs.Now(), fs.Now());
    var sect := sector;
    if sect != fs.winsect {
      ghost var s := fs.Now();
      res := SyncWindow(fs);
      if res == Ok {
        ghost var t := fs.Now();
        var ok := fs.disk.Read(fs.win, sect);
        if !ok {
          sect := ALL_ONES;
          res := DiskErr;
        }
        fs.winsect := sect;
        LoadIsQuiet(t, fs.win[..], sect);
        QuietCompose(s, t, fs.Now());
        SameWrittenBack(s, t, fs.Now());
      }
    }
  }
}
