// The objects FatFs works on: the disk (a numbered array of 512-byte sectors), the layout of a
// mounted volume and the FATFS file system object with its one-sector write-back window.
module Volume {
  import opened Words

  const SS := 512          // sector size, SS(fs)
  const SZ_DIRE := 32      // size of a directory entry

  type Sector = s: seq<byte> | |s| == SS witness seq(SS, _ => 0)

  function ZeroSector(): (s: Sector)
    ensures forall i :: 0 <= i < SS ==> s[i] == 0
  {
    seq<byte>(SS, _ => 0)
  }

  type Image = seq<Sector>

  datatype FResult =
    | Ok | DiskErr | IntErr | NoFile | Denied | NoFilesystem | InvalidName

  datatype FatType = FAT12 | FAT16 | FAT32

  // The FATFS members that mounting fixes (n_rootdir, n_fatent, fsize and so on).
  datatype Layout = Layout(
    fsType: FatType,
    csize: nat,       // sectors per cluster
    nFats: nat,       // number of FAT copies
    nRootdir: nat,    // root directory entries (FAT12/16)
    nFatent: nat,     // number of FAT entries, clusters + 2
    fsize: nat,       // sectors per FAT
    volbase: nat,
    fatbase: nat,
    dirbase: nat,     // root directory start sector (FAT32: cluster)
    database: nat)

  // One more than the largest value an entry of this type holds.
  function EntryLimit(t: FatType): nat {
    match t
    case FAT12 => 0x1000
    case FAT16 => 0x1_0000
    case FAT32 => 0x1000_0000
  }

  // 0x0FFFFFFF, the value create_chain marks a last cluster with, cut to the entry width.
  function EndMark(t: FatType): nat {
    0x0FFF_FFFF % EntryLimit(t)
  }

  // Offset in the FAT of the first byte that holds part of entry c.
  function EntryOffset(t: FatType, c: nat): nat {
    match t
    case FAT12 => c + c / 2
    case FAT16 => 2 * c
    case FAT32 => 4 * c
  }

  // Bytes that the first n entries take.
  function FatBytes(t: FatType, n: nat): nat {
    match t
    case FAT12 => n * 3 / 2 + n % 2
    case FAT16 => 2 * n
    case FAT32 => 4 * n
  }

  function EntrySize(t: FatType): nat {
    match t
    case FAT12 => 2
    case FAT16 => 2
    case FAT32 => 4
  }

  function FatEnd(g: Layout): nat {
    if g.nFats == 2 then g.fatbase + 2 * g.fsize else g.fatbase + g.fsize
  }

  function DataEnd(g: Layout): int {
    g.database + (g.nFatent - 2) * g.csize
  }

  // What find_volume establishes for every volume it accepts (lemma AcceptedIsSound of module
  // Mount), and all that the rest of the file system relies on.
  predicate SoundLayout(g: Layout) {
    && g.csize in {1, 2, 4, 8, 16, 32, 64, 128}
    && (g.nFats == 1 || g.nFats == 2)
    && 3 <= g.nFatent <= EndMark(g.fsType)
    && g.nRootdir % (SS / SZ_DIRE) == 0
    && g.volbase < g.fatbase && g.dirbase <= ALL_ONES
    && FatBytes(g.fsType, g.nFatent) <= g.fsize * SS
    && (if g.fsType == FAT32
        then g.nRootdir == 0 && g.database == FatEnd(g)
        else g.nRootdir > 0 && g.dirbase == FatEnd(g) && g.database == g.dirbase + g.nRootdir / (SS / SZ_DIRE))
    && DataEnd(g) < ALL_ONES
  }

  type Geometry = g: Layout | SoundLayout(g)
    witness Layout(FAT12, 1, 1, 16, 3, 1, 0, 1, 2, 3)

  lemma AreasInOrder(g: Geometry)
    ensures g.volbase < g.fatbase < g.fatbase + g.fsize <= FatEnd(g) <= g.database < DataEnd(g)
    ensures 1 <= g.csize <= 128 && g.nFatent >= 3
  {
  }

  lemma SmallTable(g: Geometry)
    ensures g.nFatent < ALL_ONES
  {
  }

  // A sector of the second FAT, which only mirrors the first.
  predicate IsMirror(g: Layout, s: nat) {
    g.nFats == 2 && g.fatbase + g.fsize <= s < g.fatbase + 2 * g.fsize
  }

  // The FSINFO sector, when it is not a FAT sector.
  predicate IsFsInfo(g: Layout, s: nat) {
    g.fsType == FAT32 && s == g.volbase + 1 < g.fatbase
  }

  predicate IsHidden(g: Layout, s: nat) {
    IsMirror(g, s) || IsFsInfo(g, s)
  }

  // The part of a disk image that carries the file system's state: everything but the redundant
  // copies (mirror FAT and FSINFO), which are blanked.
  function Visible(g: Layout, d: Image): (v: Image)
    ensures |v| == |d|
  {
    seq(|d|, s requires 0 <= s < |d| => if IsHidden(g, s) then ZeroSector() else d[s])
  }

  lemma VisibleUpdate(g: Layout, d: Image, s: nat, x: Sector)
    requires s < |d|
    ensures IsHidden(g, s) ==> Visible(g, d[s := x]) == Visible(g, d)
    ensures !IsHidden(g, s) ==> Visible(g, d[s := x]) == Visible(g, d)[s := x]
  {
    var v, w := Visible(g, d), Visible(g, d[s := x]);
    assert forall i :: 0 <= i < |d| && i != s ==> w[i] == v[i];
    if IsHidden(g, s) {
      assert w == v;
    } else {
      assert w == v[s := x];
    }
  }

  // Image d once the first n sectors of the byte string x have been written from sector i on.
  ghost function Written(d: Image, i: nat, x: seq<byte>, n: nat): (w: Image)
    requires n * SS <= |x|
    ensures |w| == |d|
  {
    seq<Sector>(|d|, k requires 0 <= k < |d| => if i <= k < i + n then x[(k - i) * SS..(k - i) * SS + SS] else d[k])
  }

  lemma NothingWritten(d: Image, i: nat, x: seq<byte>)
    ensures Written(d, i, x, 0) == d
  {
  }

  lemma OneMoreWritten(d: Image, i: nat, x: seq<byte>, n: nat)
    requires i + n < |d| && (n + 1) * SS <= |x|
    ensures Written(d, i, x, n + 1) == Written(d, i, x, n)[i + n := x[n * SS..n * SS + SS]]
  {
  }

  lemma OneWritten(d: Image, i: nat, x: Sector)
    requires i < |d|
    ensures Written(d, i, x, 1) == d[i := x]
  {
    assert x[0 * SS..0 * SS + SS] == x;
  }

  // Sector i of the byte string x is sector first + i of image d.
  ghost predicate SectorIs(x: seq<byte>, i: nat, d: Image, first: nat) {
    (i + 1) * SS <= |x| && first + i < |d| && x[i * SS..i * SS + SS] == d[first + i]
  }

  // The byte string x is the n sectors of image d from sector first on.
  ghost predicate IsRun(x: seq<byte>, n: nat, d: Image, first: nat) {
    |x| == n * SS && forall i :: 0 <= i < n ==> SectorIs(x, i, d, first)
  }

  lemma RunGrows(x: seq<byte>, y: seq<byte>, k: nat, d: Image, first: nat)
    requires IsRun(x, k, d, first) && first + k < |d| && y == x + d[first + k]
    ensures IsRun(y, k + 1, d, first)
  {
    assert y[k * SS..k * SS + SS] == d[first + k];
    forall i | 0 <= i < k
      ensures SectorIs(y, i, d, first)
    {
      assert SectorIs(x, i, d, first);
      assert y[i * SS..i * SS + SS] == x[i * SS..i * SS + SS];
    }
  }

  // The storage device. A transfer outside the device fails; any other one may fail unless the
  // device is reliable. A failed write leaves the sector as it was, a failed read leaves the
  // buffer in an unknown state.
  class Disk {
    const reliable: bool
    var data: Image
    ghost var history: seq<Image>   // contents after each sector written so far
    ghost var settled: nat          // the number of those writes that are known to be complete

    constructor (image: Image, reliable: bool)
      ensures data == image && this.reliable == reliable && history == []
    {
      data := image;
      this.reliable := reliable;
      history := [];
      settled := 0;
    }

    method Read(buf: array<byte>, sect: u32) returns (ok: bool)
      requires buf.Length == SS
      modifies buf
      ensures ok ==> sect < |data| && buf[..] == data[sect]
      ensures reliable && sect < |data| ==> ok
    {
      var fault: bool := *;
      if sect >= |data| || (fault && !reliable) {
        return false;
      }
      forall i | 0 <= i < SS {
        buf[i] := data[sect][i];
      }
      assert buf[..] == data[sect];
      return true;
    }

    // Completes pending writes (CTRL_SYNC).
    method Sync() returns (ok: bool)
      modifies `settled
      ensures ok ==> settled == |history|
      ensures reliable ==> ok
    {
      var fault: bool := *;
      if fault && !reliable {
        return false;
      }
      settled := |history|;
      return true;
    }

    method Write(buf: array<byte>, sect: u32) returns (ok: bool)
      requires buf.Length == SS
      modifies this
      ensures ok ==> sect < |old(data)| && data == old(data)[sect := buf[..]] && history == old(history) + [data]
      ensures !ok ==> data == old(data) && history == old(history)
      ensures |data| == |old(data)|
      ensures reliable && sect < |data| ==> ok
    {
      var fault: bool := *;
      if sect >= |data| || (fault && !reliable) {
        return false;
      }
      data := data[sect := buf[..]];
      history := history + [data];
      return true;
    }

    // A transfer of several sectors, to offset at of the buffer.
    method ReadRun(buff: array<byte>, at: nat, sect: u32, count: nat) returns (ok: bool)
      requires at + count * SS <= buff.Length
      modifies buff
      ensures buff[..at] == old(buff[..at]) && buff[at + count * SS..] == old(buff[at + count * SS..])
      ensures ok ==> sect + count <= |data|
      ensures ok ==> IsRun(buff[at..at + count * SS], count, data, sect)
      ensures reliable && sect + count <= |data| ==> ok
    {
      var fault: bool := *;
      if sect + count > |data| || (fault && !reliable) {
        return false;
      }
      var k := 0;
      while k < count
        invariant 0 <= k <= count
        invariant forall j :: 0 <= j < at || at + k * SS <= j < buff.Length ==> buff[j] == old(buff[j])
        invariant IsRun(buff[at..at + k * SS], k, data, sect)
      {
        ghost var x := buff[at..at + k * SS];
        forall j | 0 <= j < SS {
          buff[at + k * SS + j] := data[sect + k][j];
        }
        assert buff[at..at + (k + 1) * SS] == x + data[sect + k];
        RunGrows(x, x + data[sect + k], k, data, sect);
        k := k + 1;
      }
      return true;
    }

    // A transfer of several sectors, from offset at of the buffer. When it fails, done of them have
    // been written.
    method WriteRun(buff: array<byte>, at: nat, sect: u32, count: nat) returns (ok: bool, ghost done: nat)
      requires count > 0 && at + count * SS <= buff.Length
      modifies this
      ensures done <= count && (ok <==> done == count) && (ok ==> sect + count <= |old(data)|)
      ensures data == Written(old(data), sect, buff[at..at + count * SS], done)
      ensures |history| == |old(history)| + done && old(history) <= history
      ensures forall j :: |old(history)| <= j < |history| ==>
        history[j] == Written(old(data), sect, buff[at..at + count * SS], j - |old(history)| + 1)
      ensures reliable && sect + count <= |data| ==> ok
    {
      ghost var d, x := data, buff[at..at + count * SS];
      done := 0;
      if sect + count > |data| {
        return false, done;
      }
      NothingWritten(d, sect, x);
      var k := 0;
      while k < count
        invariant 0 <= done == k <= count
        invariant data == Written(d, sect, x, k)
        invariant |history| == |old(history)| + k && old(history) <= history
        invariant forall j :: |old(history)| <= j < |history| ==> history[j] == Written(d, sect, x, j - |old(history)| + 1)
      {
        var fault: bool := *;
        if fault && !reliable {
          return false, done;
        }
        OneMoreWritten(d, sect, x, k);
        assert buff[at + k * SS..at + k * SS + SS] == x[k * SS..k * SS + SS];
        data := data[sect + k := buff[at + k * SS..at + k * SS + SS]];
        assert data == Written(d, sect, x, k + 1);
        history := history + [data];
        k := k + 1;
        done := k;
      }
      return true, done;
    }
  }

  // The contents of a file system object and its disk at one moment.
  datatype State = State(
    geo: Geometry, win: Sector, winsect: u32, wflag: bool,
    data: Image, history: seq<Image>, reliable: bool)

  ghost predicate Sound(s: State) {
    && DataEnd(s.geo) <= |s.data| < ALL_ONES
    && (s.wflag ==> s.winsect < |s.data| && !IsHidden(s.geo, s.winsect))
    && (!s.wflag && s.winsect < |s.data| && !IsHidden(s.geo, s.winsect) ==> s.win == s.data[s.winsect])
  }

  // The disk as the file system means it to be: the device with a dirty window laid over it.
  ghost function Logical(s: State): (v: Image)
    ensures |v| == |s.data|
  {
    Visible(s.geo, if s.wflag && s.winsect < |s.data| then s.data[s.winsect := s.win] else s.data)
  }

  // A sector of the first FAT.
  predicate InFat(g: Layout, i: int) {
    g.fatbase <= i < g.fatbase + g.fsize
  }

  // Every FAT sector that is not dirty in the window equals its mirror copy.
  ghost predicate Mirrored(s: State) {
    s.geo.nFats == 2 ==>
      forall i :: InFat(s.geo, i) && !(s.wflag && s.winsect == i) ==> IsCopied(s, i)
  }

  ghost predicate IsCopied(s: State, i: int) {
    0 <= i < i + s.geo.fsize < |s.data| && s.data[i] == s.data[i + s.geo.fsize]
  }

  // The states reached from s while the disk has shown only the given views, whatever the moment
  // at which one stops: the views are what a power failure can leave behind. On a reliable device
  // the FAT copies have stayed equal.
  ghost function Reached(s: State, views: iset<Image>): iset<State> {
    iset t |
      && Sound(s) && Sound(t)
      && t.geo == s.geo && |t.data| == |s.data| && t.reliable == s.reliable
      && |s.history| <= |t.history|
      && (forall i :: 0 <= i < |s.history| ==> t.history[i] == s.history[i])
      && (forall i :: |s.history| <= i < |t.history| ==> Visible(s.geo, t.history[i]) in views)
      && (s.reliable && Mirrored(s) ==> Mirrored(t))
  }

  ghost predicate Steps(s: State, t: State, views: iset<Image>) {
    t in Reached(s, views)
  }

  lemma StepsCompose(s: State, t: State, u: State, views: iset<Image>)
    requires Steps(s, t, views) && Steps(t, u, views)
    ensures Steps(s, u, views)
  {
  }

  lemma StepsKeep(s: State, t: State, views: iset<Image>)
    requires Steps(s, t, views)
    ensures Sound(s) && Sound(t) && t.geo == s.geo && |t.data| == |s.data| && t.reliable == s.reliable
  {
  }

  lemma StepsWiden(s: State, t: State, views: iset<Image>, wider: iset<Image>)
    requires Steps(s, t, views) && views <= wider
    ensures Steps(s, t, wider)
  {
  }

  // The states in which the window may have moved, and a dirty one may have been written back,
  // but the file system is as it was in s.
  ghost function Undisturbed(s: State): iset<State> {
    iset t | Steps(s, t, iset{Logical(s)}) && Logical(t) == Logical(s)
  }

  ghost predicate Quiet(s: State, t: State) {
    t in Undisturbed(s)
  }

  lemma QuietRefl(s: State)
    requires Sound(s)
    ensures Quiet(s, s)
  {
  }

  lemma QuietKeepsView(s: State, t: State)
    requires Quiet(s, t)
    ensures Logical(t) == Logical(s)
  {
  }

  lemma QuietIsSound(s: State, u: State)
    requires Quiet(s, u)
    ensures Sound(s) && Sound(u) && u.geo == s.geo && |u.data| == |s.data| && Logical(u) == Logical(s)
  {
  }

  lemma QuietCompose(s: State, t: State, u: State)
    requires Quiet(s, t) && Quiet(t, u)
    ensures Quiet(s, u)
  {
  }

  // What the file system object keeps of the allocation of clusters: the last one allocated, the number
  // of free ones (ALL_ONES when unknown), and the FSINFO flags.
  datatype Counters = Counters(last: u32, free: u32, flag: byte)

  // The lowest bit set, as in fsi_flag |= 1.
  function Flagged(flag: byte): (r: byte)
    ensures r as int % 2 == 1 && r as int / 2 == flag as int / 2
  {
    if flag % 2 == 1 then flag else flag + 1
  }

  // The file system object (FATFS). The members that mounting fixes are grouped in geo.
  class Fatfs {
    const disk: Disk
    const win: array<byte>   // disk access window
    const geo: Geometry
    var winsect: u32         // sector that appears in win, ALL_ONES when none
    var wflag: bool          // win is dirty
    var lastClust: u32       // last allocated cluster
    var freeClust: u32       // number of free clusters, ALL_ONES when unknown
    var fsiFlag: byte        // FSINFO flags: 0x80 disabled, 1 to be written

    constructor (disk: Disk, geo: Geometry)
      ensures this.disk == disk && this.geo == geo && win.Length == SS && fresh(win)
      ensures winsect == ALL_ONES && !wflag && lastClust == freeClust == ALL_ONES && fsiFlag == 0x80
    {
      this.disk := disk;
      this.geo := geo;
      win := new byte[SS](_ => 0);
      winsect, wflag := ALL_ONES, false;
      lastClust, freeClust, fsiFlag := ALL_ONES, ALL_ONES, 0x80;
    }

    ghost function Now(): State
      requires win.Length == SS
      reads this, win, disk
    {
      State(geo, win[..], winsect, wflag, disk.data, disk.history, disk.reliable)
    }

    ghost predicate Valid()
      reads this, win, disk
    {
      win.Length == SS && Sound(Now())
    }

    ghost function Kept(): Counters
      reads this
    {
      Counters(lastClust, freeClust, fsiFlag)
    }

    ghost function View(): Image
      requires win.Length == SS
      reads this, win, disk
    {
      Logical(Now())
    }
  }
}
