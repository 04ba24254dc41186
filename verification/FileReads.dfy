// f_read on the file object.
module FileReads {
  import opened Words
  import opened Volume
  import opened FatTable
  import opened FatAccess
  import opened Arith
  import opened Chains
  import opened DirTable
  import opened Directory
  import opened FileModel
  import opened FileSteps

  // The file object (FIL). The chain is what its FAT entries say, kept for the proofs.
  class Fil {
    const fs: Fatfs
    const buf: array<byte>    // private sector buffer
    const canRead: bool       // FA_READ
    const canWrite: bool      // FA_WRITE
    var dirty: bool           // FA__DIRTY
    var written: bool         // FA__WRITTEN
    var err: FResult          // abort flag, Ok when clear
    var fptr: u32
    var fsize: u32
    var sclust: u32
    var clust: u32
    var dsect: u32
    ghost var chain: seq<nat>

    // A file object as f_open leaves it.
    constructor (fs: Fatfs, canRead: bool, canWrite: bool, sclust: u32, fsize: u32, ghost chain: seq<nat>)
      ensures this.fs == fs && this.canRead == canRead && this.canWrite == canWrite && buf.Length == SS && fresh(buf)
      ensures err == Ok && At() == FileState(0, fsize, sclust, 0, 0, false, buf[..], chain)
    {
      this.fs, this.canRead, this.canWrite := fs, canRead, canWrite;
      buf := new byte[SS](_ => 0);
      dirty, written, err := false, false, Ok;
      fptr, clust, dsect := 0, 0, 0;
      this.sclust, this.fsize := sclust, fsize;
      this.chain := chain;
    }

    ghost function At(): FileState
      requires buf.Length == SS
      reads this, buf
    {
      FileState(fptr, fsize, sclust, clust, dsect, dirty, buf[..], chain)
    }

    ghost predicate Ready()
      reads this, buf, fs, fs.win, fs.disk
    {
      buf.Length == SS && fs.Valid() && buf != fs.win
    }
  }

  lemma OpenedIsOk(s: State, f: FileState)
    requires FileCore(s, f, f.fsize) && f.fptr == 0
    ensures FileOk(s, f, f.fsize)
  {
  }

  // The cluster that f_read continues in at a sector boundary.
  function NextToRead(g: Geometry, f: seq<nat>, fptr: nat, sclust: nat, clust: nat): nat {
    AreasInOrder(g);
    if SectorIndex(g, fptr / SS) != 0 then clust
    else if fptr == 0 then sclust
    else if IsCluster(f, clust) then f[clust]
    else 1
  }

  // Follows the chain to the cluster at the position, a sector boundary.
  method ClusterToRead(fp: Fil) returns (res: FResult)
    requires fp.Ready()
    modifies fp`clust, fp.fs`wflag, fp.fs`winsect, fp.fs.win, fp.fs.disk
    ensures fp.Ready() && Quiet(old(fp.fs.Now()), fp.fs.Now())
    ensures fp.fs.winsect == old(fp.fs.winsect) || fp.fs.winsect == ALL_ONES || InFat(fp.fs.geo, fp.fs.winsect)
    ensures res == Ok || res == IntErr || (res == DiskErr && (!fp.fs.disk.reliable || fp.sclust == ALL_ONES))
    ensures var clst := NextToRead(fp.fs.geo, Fat(fp.fs.geo, old(fp.fs.View())), fp.fptr, fp.sclust, old(fp.clust));
      && (res == Ok ==> fp.clust == clst)
      && (res == IntErr ==> clst < 2)
  {
    hide Fat, Undisturbed, Reached, Logical, SoundLayout;
    AreasInOrder(fp.fs.geo);
    ghost var s := fp.fs.Now();
    QuietRefl(s);
    EntriesAreSmall(fp.fs.geo, fp.fs.View());
    res := Ok;
    if SectorIndex(fp.fs.geo, fp.fptr as int / SS) == 0 {
      var clst;
      if fp.fptr == 0 {
        clst := fp.sclust;
      } else {
        clst := GetFat(fp.fs, fp.clust);
        QuietKeepsView(s, fp.fs.Now());
      }
      if clst < 2 {
        return IntErr;
      }
      if clst == ALL_ONES {
        return DiskErr;
      }
      fp.clust := clst;
    }
  }

  lemma SectorInRange(g: Geometry, c: nat, k: nat)
    requires ClustToSect(g, c) != 0 && k < g.csize
    ensures ClustToSect(g, c) + k < ALL_ONES
  {
    hide SoundLayout;
    AreasInOrder(g);
    DataEndInRange(g);
    SectorFits(g, c, k);
  }

  lemma DataEndInRange(g: Geometry)
    ensures DataEnd(g) < ALL_ONES
  {
  }

  // On a file in order that is the cluster of the position.
  lemma NextToReadIsNext(s: State, f: FileState, n: nat)
    requires FileOk(s, f, n) && f.fptr < n && f.fptr % SS == 0
    ensures InChain(s.geo, f.chain, f.fptr / SS)
    ensures 2 <= NextToRead(s.geo, Fat(s.geo, Logical(s)), f.fptr, f.sclust, f.clust) == f.chain[ClusterIndex(s.geo, f.fptr / SS)]
    ensures f.sclust < ALL_ONES
  {
    hide Fat, Logical, SoundLayout, IsFileSector, ClustToSect, Sect, InPosition, IsChain, ClusterIndex, SectorIndex;
    CoversBefore(s.geo, f.chain, n, f.fptr);
    ChainIsLinked(s, f, n, 0);
    SmallTable(s.geo);
    AreasInOrder(s.geo);
    IndicesAre(s.geo, 0, 0, 0);
    if f.fptr > 0 {
      if SectorIndex(s.geo, f.fptr / SS) != 0 {
        InsideCluster(s.geo, f);
      } else {
        AtClusterBoundary(s.geo, f);
        ChainIsLinked(s, f, n, ClusterIndex(s.geo, f.fptr / SS) - 1);
      }
    }
  }

  // Writes a dirty buffer back.
  method FlushBuffer(fp: Fil, ghost n: nat) returns (res: FResult)
    requires fp.Ready() && FileCore(fp.fs.Now(), fp.At(), n)
    modifies fp`dirty, fp.fs.disk
    ensures fp.Ready() && (res == Ok || (res == DiskErr && !fp.fs.disk.reliable))
    ensures res == Ok ==> !fp.dirty && SameFile(old(fp.fs.Now()), old(fp.At()), n, fp.fs.Now(), fp.At())
  {
    hide FileCore, SameFile, Logical;
    ghost var s, f := fp.fs.Now(), fp.At();
    res := Ok;
    if fp.dirty {
      CoreIsSound(s, f, n);
      var ok := fp.fs.disk.Write(fp.buf, fp.dsect);
      if !ok {
        return DiskErr;
      }
      fp.dirty := false;
      FlushKeepsFile(s, f, n, fp.fs.Now());
      SameIsSound(s, f, n, fp.fs.Now(), fp.At());
    } else {
      SameRefl(s, f, n, f);
    }
  }

  lemma CoreIsSound(s: State, f: FileState, n: nat)
    requires FileCore(s, f, n)
    ensures Sound(s)
    ensures f.dirty ==> f.dsect < |s.data|
  {
    hide Sect, InChain, Logical;
    if f.dirty {
      FileSectorFacts(s, f, n, f.dsect);
    }
  }

  lemma SameIsSound(s: State, f: FileState, n: nat, t: State, e: FileState)
    requires SameFile(s, f, n, t, e)
    ensures Sound(t) && FileCore(t, e, n) && e.chain == f.chain && t.geo == s.geo
  {
  }

  // Loads sector sect of the file, unless the buffer has it.
  method LoadSector(fp: Fil, sect: u32, ghost n: nat) returns (res: FResult)
    requires fp.Ready() && FileCore(fp.fs.Now(), fp.At(), n) && IsFileSector(fp.fs.geo, fp.chain, sect)
    modifies fp`dirty, fp`dsect, fp.buf, fp.fs.disk
    ensures fp.Ready() && (res == Ok || (res == DiskErr && !fp.fs.disk.reliable))
    ensures res == Ok ==> fp.dsect == sect && SameFile(old(fp.fs.Now()), old(fp.At()), n, fp.fs.Now(), fp.At())
  {
    hide FileCore, SameFile, Logical, IsFileSector;
    ghost var s, f := fp.fs.Now(), fp.At();
    res := Ok;
    if fp.dsect != sect {
      res := FlushBuffer(fp, n);
      if res != Ok {
        return;
      }
      ghost var t, e := fp.fs.Now(), fp.At();
      SameIsSound(s, f, n, t, e);
      FileSectorFacts(t, e, n, sect);
      var ok := fp.fs.disk.Read(fp.buf, sect);
      if !ok {
        return DiskErr;
      }
      LoadKeepsFile(t, e, n, sect, fp.buf[..]);
      fp.dsect := sect;
      SameCompose(s, f, n, t, e, fp.fs.Now(), fp.At());
    } else {
      SameRefl(s, f, n, f);
    }
  }

  // ----- transfers

  // x is the piece of c at offset at.
  ghost predicate IsPiece(x: seq<byte>, c: seq<byte>, at: nat) {
    at + |x| <= |c| && x == c[at..at + |x|]
  }

  // Sectors of the file that have been read one by one are a piece of its contents.
  lemma RunOfContents(g: Geometry, v: Image, chain: seq<nat>, n: nat, at: nat, x: seq<byte>, c: nat)
    requires Holds(g, v) && AreClusters(g, chain) && Covers(g, chain, n) && at + c * SS <= n
    requires at % SS == 0 && InChain(g, chain, at / SS) && SectorIndex(g, at / SS) + c <= g.csize
    requires IsRun(x, c, v, Sect(g, chain, at / SS))
    ensures x == Contents(g, v, chain, n)[at..at + c * SS]
  {
    hide SoundLayout, Sect, InChain, Covers;
    var y := Contents(g, v, chain, n)[at..at + c * SS];
    forall j | 0 <= j < c * SS
      ensures x[j] == y[j]
    {
      CoversBefore(g, chain, n, at + j);
      ByteOfSectors(g, v, chain, at, x, c, j);
    }
  }

  lemma ByteOfSectors(g: Geometry, v: Image, chain: seq<nat>, at: nat, x: seq<byte>, c: nat, j: nat)
    requires Holds(g, v) && AreClusters(g, chain) && j < c * SS
    requires at % SS == 0 && InChain(g, chain, at / SS) && SectorIndex(g, at / SS) + c <= g.csize
    requires IsRun(x, c, v, Sect(g, chain, at / SS))
    requires InChain(g, chain, (at + j) / SS)
    ensures x[j] == ByteOf(g, v, chain, at + j)
  {
    hide SoundLayout, Sect, InChain;
    assert (at + j) / SS == at / SS + j / SS && (at + j) % SS == j % SS;
    assert SectorIs(x, j / SS, v, Sect(g, chain, at / SS));
    SectRun(g, chain, at / SS, j / SS);
    SectInData(g, chain, (at + j) / SS);
    SliceAt(x, j / SS, j % SS);
  }

  lemma WithinSector(p: nat, j: nat)
    requires p % SS + j < SS
    ensures (p + j) / SS == p / SS && (p + j) % SS == p % SS + j
  {
  }

  lemma BufferOfContents(s: State, f: FileState, n: nat, r: nat)
    requires FileCore(s, f, n) && HasBuffer(s.geo, f) && f.fptr % SS + r <= SS && f.fptr + r <= n
    ensures f.buf[f.fptr % SS..f.fptr % SS + r] == Bytes(s, f, n)[f.fptr..f.fptr + r]
  {
    hide SoundLayout, Sect, InChain, Covers, Logical, Fat, IsFileSector, IsChain;
    SectorOfFile(s, f, n, f.fptr / SS);
    var x, y := f.buf[f.fptr % SS..f.fptr % SS + r], Bytes(s, f, n)[f.fptr..f.fptr + r];
    forall j | 0 <= j < r
      ensures x[j] == y[j]
    {
      CoversBefore(s.geo, f.chain, n, f.fptr + j);
      WithinSector(f.fptr, j);
    }
  }

  lemma WrapRange(d: u32, sect: u32, c: nat)
    requires sect + c < 0x1_0000_0000
    ensures Wrap32(d - sect) < c <==> sect <= d < sect + c
  {
  }

  // What sector i stands for: the buffer where that is newer, the disk elsewhere.
  ghost predicate DirectIs(s: State, f: FileState, i: nat) {
    i < |s.data| && Meant(s, f)[i] == if f.dirty && f.dsect == i then f.buf else s.data[i]
  }

  lemma DirectIsFile(s: State, f: FileState, n: nat, q: nat, c: nat)
    requires FileCore(s, f, n) && InChain(s.geo, f.chain, q) && SectorIndex(s.geo, q) + c <= s.geo.csize
    ensures Sect(s.geo, f.chain, q) + c <= |s.data| < ALL_ONES
    ensures forall k :: Sect(s.geo, f.chain, q) <= k < Sect(s.geo, f.chain, q) + c ==> DirectIs(s, f, k)
  {
    hide Logical, Sect, InChain, SoundLayout, IsFileSector, Fat, IsChain, Covers;
    var i := Sect(s.geo, f.chain, q);
    SectInData(s.geo, f.chain, q);
    if c > 0 {
      SectRun(s.geo, f.chain, q, c - 1);
      SectInData(s.geo, f.chain, q + (c - 1));
    }
    forall k | i <= k < i + c
      ensures DirectIs(s, f, k)
    {
      SectRun(s.geo, f.chain, q, k - i);
      SectorOfFile(s, f, n, q + (k - i));
    }
  }

  // The c sectors from sector i on as read from the disk, with the buffer put in its place.
  ghost function Patched(f: FileState, i: nat, x: seq<byte>, c: nat): (y: seq<byte>)
    requires |x| == c * SS
    ensures |y| == |x|
  {
    if f.dirty && i <= f.dsect < i + c
    then Splice(x, (f.dsect - i) * SS, f.buf)
    else x
  }

  lemma PatchElsewhere(f: FileState, i: nat, x: seq<byte>, c: nat, j: nat)
    requires |x| == c * SS && j < c && !(f.dirty && f.dsect == i + j)
    ensures Patched(f, i, x, c)[j * SS..j * SS + SS] == x[j * SS..j * SS + SS]
  {
    var y := Patched(f, i, x, c);
    forall k | j * SS <= k < j * SS + SS
      ensures y[k] == x[k]
    {
      assert k / SS == j;
    }
  }

  lemma PatchedIsMeant(s: State, f: FileState, i: nat, x: seq<byte>, c: nat)
    requires IsRun(x, c, s.data, i)
    requires forall k :: i <= k < i + c ==> DirectIs(s, f, k)
    ensures IsRun(Patched(f, i, x, c), c, Meant(s, f), i)
  {
    hide Meant;
    var y := Patched(f, i, x, c);
    forall j | 0 <= j < c
      ensures SectorIs(y, j, Meant(s, f), i)
    {
      assert SectorIs(x, j, s.data, i) && DirectIs(s, f, i + j);
      if f.dirty && f.dsect == i + j {
        assert y[j * SS..j * SS + SS] == f.buf;
      } else {
        PatchElsewhere(f, i, x, c, j);
      }
    }
  }

  lemma SpliceInPiece(y: seq<byte>, at: nat, n: nat, o: nat, b: seq<byte>)
    requires at + n <= |y| && o + |b| <= n
    ensures Splice(y, at + o, b)[at..at + n] == Splice(y[at..at + n], o, b)
    ensures Splice(y, at + o, b)[..at] == y[..at] && Splice(y, at + o, b)[at + n..] == y[at + n..]
  {
    hide Splice;
  }

  // A buffer y with the sectors from sector i on at offset at, once the newer one has been put there.
  ghost function WithNewer(f: FileState, i: nat, y: seq<byte>, at: nat, c: nat): (z: seq<byte>)
    requires at + c * SS <= |y|
    ensures |z| == |y|
  {
    if f.dirty && i <= f.dsect < i + c then Splice(y, at + (f.dsect - i) * SS, f.buf) else y
  }

  lemma NewerIsPatched(f: FileState, i: nat, y: seq<byte>, at: nat, c: nat)
    requires at + c * SS <= |y|
    ensures var z := WithNewer(f, i, y, at, c);
      && z[at..at + c * SS] == Patched(f, i, y[at..at + c * SS], c)
      && z[..at] == y[..at] && z[at + c * SS..] == y[at + c * SS..]
  {
    hide Splice;
    if f.dirty && i <= f.dsect < i + c {
      SpliceInPiece(y, at, c * SS, (f.dsect - i) * SS, f.buf);
    }
  }

  // Replaces one of the sectors that have been read with the buffer, when that is newer.
  method TakeNewer(fp: Fil, buff: array<byte>, at: nat, sect: u32, c: nat)
    requires fp.buf.Length == SS && buff != fp.buf && at + c * SS <= buff.Length && sect + c < ALL_ONES
    modifies buff
    ensures buff[..] == WithNewer(fp.At(), sect, old(buff[..]), at, c)
  {
    hide Wrap32, Splice;
    WrapRange(fp.dsect, sect, c);
    if fp.dirty && Wrap32(fp.dsect - sect) < c {
      assert fp.buf[..][0..SS] == fp.buf[..];
      CopyOut(fp.buf, 0, buff, at + (fp.dsect - sect) * SS, SS);
    }
  }

  // Reads c sectors of a cluster straight from the disk, and takes the one that is newer in the
  // buffer from there.
  method ReadDirect(fp: Fil, buff: array<byte>, at: nat, sect: u32, c: nat, ghost q: nat, ghost n: nat) returns (res: FResult)
    requires fp.Ready() && FileCore(fp.fs.Now(), fp.At(), n) && buff != fp.buf && buff != fp.fs.win
    requires InChain(fp.fs.geo, fp.chain, q) && sect == Sect(fp.fs.geo, fp.chain, q)
    requires c > 0 && SectorIndex(fp.fs.geo, q) + c <= fp.fs.geo.csize && at + c * SS <= buff.Length
    modifies buff
    ensures buff[..at] == old(buff[..at]) && buff[at + c * SS..] == old(buff[at + c * SS..])
    ensures res == Ok || (res == DiskErr && !fp.fs.disk.reliable)
    ensures res == Ok ==> IsRun(buff[at..at + c * SS], c, Meant(fp.fs.Now(), fp.At()), sect)
  {
    hide FileCore, Logical, Sect, InChain, SoundLayout, IsRun, Meant, Patched, WithNewer;
    ghost var s, f := fp.fs.Now(), fp.At();
    DirectIsFile(s, f, n, q, c);
    res := Ok;
    var ok := fp.fs.disk.ReadRun(buff, at, sect, c);
    if !ok {
      return DiskErr;
    }
    ghost var x := buff[at..at + c * SS];
    NewerIsPatched(f, sect, buff[..], at, c);
    TakeNewer(fp, buff, at, sect, c);
    PatchedIsMeant(s, f, sect, x, c);
  }

  // Copies up to btr bytes of the buffer's sector.
  method ReadBuffered(fp: Fil, buff: array<byte>, at: nat, btr: u32, ghost n: nat) returns (rcnt: u32)
    requires fp.Ready() && FileCore(fp.fs.Now(), fp.At(), n) && buff != fp.buf && buff != fp.fs.win
    requires HasBuffer(fp.fs.geo, fp.At()) && 0 < btr && fp.fptr + btr <= n && at + btr <= buff.Length
    modifies buff
    ensures 0 < rcnt <= btr && rcnt == Min(btr, SS - fp.fptr % SS)
    ensures buff[..at] == old(buff[..at]) && buff[at + rcnt..] == old(buff[at + rcnt..])
    ensures IsPiece(buff[at..at + rcnt], Bytes(fp.fs.Now(), fp.At(), n), fp.fptr)
  {
    hide FileCore, Logical, HasBuffer, Splice, SoundLayout;
    rcnt := SS - fp.fptr as int % SS;
    if rcnt > btr {
      rcnt := btr;
    }
    BufferOfContents(fp.fs.Now(), fp.At(), n, rcnt);
    CopyOut(fp.buf, fp.fptr as int % SS, buff, at, rcnt);
  }

  // mem_cpy between arrays.
  method CopyOut(src: array<byte>, off: nat, dst: array<byte>, at: nat, n: nat)
    requires src != dst && off + n <= src.Length && at + n <= dst.Length
    modifies dst
    ensures dst[at..at + n] == src[..][off..off + n]
    ensures dst[..at] == old(dst[..at]) && dst[at + n..] == old(dst[at + n..])
    ensures dst[..] == Splice(old(dst[..]), at, src[..][off..off + n])
  {
    forall j | 0 <= j < n {
      dst[at + j] := src[off + j];
    }
  }

  lemma DirectIsPiece(s: State, f: FileState, n: nat, x: seq<byte>, c: nat)
    requires FileCore(s, f, n) && HasCluster(s.geo, f) && f.fptr % SS == 0 && f.fptr + c * SS <= n
    requires c > 0 && SectorIndex(s.geo, f.fptr / SS) + c <= s.geo.csize
    requires IsRun(x, c, Meant(s, f), Sect(s.geo, f.chain, f.fptr / SS))
    ensures IsPiece(x, Bytes(s, f, n), f.fptr)
    ensures InPosition(s.geo, f.(fptr := f.fptr + c * SS))
  {
    hide Logical, Sect, InChain, SoundLayout, IsFileSector, Fat, IsChain, Covers, IsRun;
    assert |x| == c * SS by {
      RunLength(x, c, Meant(s, f), Sect(s.geo, f.chain, f.fptr / SS));
    }
    RunOfContents(s.geo, Meant(s, f), f.chain, n, f.fptr, x, c);
    AfterSectors(s.geo, f, c);
  }

  lemma RunLength(x: seq<byte>, c: nat, d: Image, first: nat)
    requires IsRun(x, c, d, first)
    ensures |x| == c * SS
  {
  }

  // The part of f_read's loop at a sector boundary, once the cluster is known: reads whole sectors
  // directly (rcnt > 0), or loads the sector of the position into the buffer.
  method ReadAligned(fp: Fil, buff: array<byte>, at: nat, btr: u32, ghost n: nat) returns (res: FResult, rcnt: u32)
    requires fp.Ready() && FileCore(fp.fs.Now(), fp.At(), n) && buff != fp.buf && buff != fp.fs.win
    requires HasCluster(fp.fs.geo, fp.At())
    requires fp.fptr as int % SS == 0 && 0 < btr && fp.fptr + btr <= n && at + btr <= buff.Length
    modifies fp`dirty, fp`dsect, fp.buf, fp.fs.disk, buff
    ensures fp.Ready() && (res == Ok || (res == DiskErr && !fp.fs.disk.reliable))
    ensures rcnt <= btr && buff[..at] == old(buff[..at]) && buff[at + rcnt..] == old(buff[at + rcnt..])
    ensures res == Ok ==> SameFile(old(fp.fs.Now()), old(fp.At()), n, fp.fs.Now(), fp.At())
    ensures res == Ok && rcnt == 0 ==> HasBuffer(fp.fs.geo, fp.At())
    ensures res == Ok && rcnt > 0 ==>
      && IsPiece(buff[at..at + rcnt], old(Bytes(fp.fs.Now(), fp.At(), n)), fp.fptr)
      && InPosition(fp.fs.geo, fp.At().(fptr := fp.fptr + rcnt))
  {
    hide Logical, SoundLayout, FileCore, SameFile, Sect, InChain, IsPiece, IsFileSector, ClustToSect, InPosition, Bytes;
    ghost var s, f := fp.fs.Now(), fp.At();
    AreasInOrder(fp.fs.geo);
    AtSector(s, f, n);
    res, rcnt := Ok, 0;
    var sect := ClustToSect(fp.fs.geo, fp.clust);
    if sect == 0 {
      res := IntErr;
    } else {
      var csect: nat := SectorIndex(fp.fs.geo, fp.fptr as int / SS);
      SectorInRange(fp.fs.geo, fp.clust, csect);
      sect := sect + csect;
      var cc: nat := btr as int / SS;
      if cc > 0 {
        if csect + cc > fp.fs.geo.csize {
          cc := fp.fs.geo.csize - csect;
        }
        res := ReadDirect(fp, buff, at, sect, cc, fp.fptr as int / SS, n);
        SameRefl(s, f, n, f);
        rcnt := SS * cc;
        if res == Ok {
          DirectIsPiece(s, f, n, buff[at..at + rcnt], cc);
        }
      } else {
        res := LoadSector(fp, sect, n);
      }
    }
  }

  // The whole part of the loop at a sector boundary.
  method ReadAtBoundary(fp: Fil, buff: array<byte>, at: nat, btr: u32, ghost n: nat) returns (res: FResult, rcnt: u32)
    requires fp.Ready() && FileOk(fp.fs.Now(), fp.At(), n) && buff != fp.buf && buff != fp.fs.win
    requires fp.fptr as int % SS == 0 && 0 < btr && fp.fptr + btr <= n && at + btr <= buff.Length
    modifies fp`clust, fp`dirty, fp`dsect, fp.buf, fp.fs`wflag, fp.fs`winsect, fp.fs.win, fp.fs.disk, buff
    ensures fp.Ready() && (res == Ok || (res == DiskErr && !fp.fs.disk.reliable))
    ensures rcnt <= btr && buff[..at] == old(buff[..at]) && buff[at + rcnt..] == old(buff[at + rcnt..])
    ensures res == Ok ==> SameFile(old(fp.fs.Now()), old(fp.At()), n, fp.fs.Now(), fp.At())
    ensures res == Ok && rcnt == 0 ==> HasBuffer(fp.fs.geo, fp.At())
    ensures res == Ok && rcnt > 0 ==>
      && IsPiece(buff[at..at + rcnt], old(Bytes(fp.fs.Now(), fp.At(), n)), fp.fptr)
      && InPosition(fp.fs.geo, fp.At().(fptr := fp.fptr + rcnt))
  {
    hide Fat, Undisturbed, Reached, Logical, SoundLayout, FileCore, SameFile, Sect, InChain, NextToRead, IsPiece, IsFileSector,
         ClustToSect, InPosition, Bytes;
    AreasInOrder(fp.fs.geo);
    ghost var s, f := fp.fs.Now(), fp.At();
    rcnt := 0;
    NextToReadIsNext(s, f, n);
    res := ClusterToRead(fp);
    ghost var t, e := fp.fs.Now(), fp.At();
    FollowedIsSame(s, f, n, t, e);
    if res == Ok {
      res, rcnt := ReadAligned(fp, buff, at, btr, n);
      if res == Ok {
        SameCompose(s, f, n, t, e, fp.fs.Now(), fp.At());
        SameBytes(s, f, n, t, e);
      }
    }
  }

  lemma FollowedIsSame(s: State, f: FileState, n: nat, t: State, e: FileState)
    requires FileCore(s, f, n) && Quiet(s, t) && Alike(f, e)
    requires t.winsect == s.winsect || t.winsect == ALL_ONES || InFat(s.geo, t.winsect)
    ensures SameFile(s, f, n, t, e) && FileCore(t, e, n)
  {
    hide Logical, Fat, IsFileSector, Covers, IsChain, Undisturbed;
    WindowKeepsFile(s, f, n, t);
    SameElsewhere(s, f, n, t, f, e);
  }

  // The sector at the position, from the number of its cluster.
  lemma AtSector(s: State, f: FileState, n: nat)
    requires FileCore(s, f, n) && HasCluster(s.geo, f)
    ensures ClustToSect(s.geo, f.clust) != 0
    ensures Sect(s.geo, f.chain, f.fptr / SS) == ClustToSect(s.geo, f.clust) + SectorIndex(s.geo, f.fptr / SS)
    ensures IsFileSector(s.geo, f.chain, Sect(s.geo, f.chain, f.fptr / SS))
  {
    hide Logical, Fat, IsFileSector, Covers, IsChain, ClustToSect, SoundLayout, Sect, InChain;
    SectorOfFile(s, f, n, f.fptr / SS);
    SectOfCluster(s.geo, f.chain, f.fptr / SS);
  }

  lemma SectOfCluster(g: Geometry, chain: seq<nat>, q: nat)
    requires AreClusters(g, chain) && InChain(g, chain, q)
    ensures Sect(g, chain, q) == ClustToSect(g, chain[ClusterIndex(g, q)]) + SectorIndex(g, q)
    ensures ClustToSect(g, chain[ClusterIndex(g, q)]) != 0
  {
    hide SoundLayout, ClusterIndex, SectorIndex, ClustToSect;
    DirTable.HasSector(g, chain[ClusterIndex(g, q)]);
  }

  // One round of f_read's loop: reads rcnt of the btr bytes to offset at of buff.
  method ReadSome(fp: Fil, buff: array<byte>, at: nat, btr: u32, ghost n: nat) returns (res: FResult, rcnt: u32)
    requires fp.Ready() && FileOk(fp.fs.Now(), fp.At(), n) && buff != fp.buf && buff != fp.fs.win
    requires 0 < btr && fp.fptr + btr <= n && at + btr <= buff.Length
    modifies fp`clust, fp`dirty, fp`dsect, fp.buf, fp.fs`wflag, fp.fs`winsect, fp.fs.win, fp.fs.disk, buff
    ensures fp.Ready() && (res == Ok || (res == DiskErr && !fp.fs.disk.reliable))
    ensures res == Ok ==> 0 < rcnt <= btr
    ensures rcnt <= btr && buff[..at] == old(buff[..at]) && buff[at + rcnt..] == old(buff[at + rcnt..])
    ensures res == Ok ==>
      && SameFile(old(fp.fs.Now()), old(fp.At()), n, fp.fs.Now(), fp.At())
      && IsPiece(buff[at..at + rcnt], old(Bytes(fp.fs.Now(), fp.At(), n)), fp.fptr)
      && InPosition(fp.fs.geo, fp.At().(fptr := fp.fptr + rcnt))
  {
    hide Fat, Logical, SoundLayout, FileCore, SameFile, IsPiece, IsFileSector, InPosition, Bytes, HasBuffer, Sect;
    ghost var s, f := fp.fs.Now(), fp.At();
    res, rcnt := Ok, 0;
    if fp.fptr as int % SS == 0 {
      res, rcnt := ReadAtBoundary(fp, buff, at, btr, n);
    } else {
      InsideCluster(fp.fs.geo, f);
      SameRefl(s, f, n, f);
    }
    if res == Ok && rcnt == 0 {
      rcnt := ReadFromBuffer(fp, buff, at, btr, n, s, f);
    }
  }

  // The buffered part of a round: the sector of the position is in the buffer.
  method ReadFromBuffer(fp: Fil, buff: array<byte>, at: nat, btr: u32, ghost n: nat, ghost s: State, ghost f: FileState)
    returns (rcnt: u32)
    requires fp.Ready() && FileCore(s, f, n) && SameFile(s, f, n, fp.fs.Now(), fp.At()) && HasBuffer(fp.fs.geo, fp.At())
    requires buff != fp.buf && buff != fp.fs.win && 0 < btr && fp.fptr + btr <= n && at + btr <= buff.Length
    modifies buff
    ensures fp.Ready() && fp.fs.Now() == old(fp.fs.Now()) && 0 < rcnt <= btr
    ensures buff[..at] == old(buff[..at]) && buff[at + rcnt..] == old(buff[at + rcnt..])
    ensures IsPiece(buff[at..at + rcnt], Bytes(s, f, n), fp.fptr)
    ensures InPosition(fp.fs.geo, fp.At().(fptr := fp.fptr + rcnt))
  {
    hide Fat, Logical, SoundLayout, FileCore, SameFile, IsPiece, IsFileSector, InPosition, Bytes, HasBuffer, Sect;
    ghost var t, e := fp.fs.Now(), fp.At();
    SameBytes(s, f, n, t, e);
    SameIsSound(s, f, n, t, e);
    rcnt := ReadBuffered(fp, buff, at, btr, n);
    AfterBytes(fp.fs.geo, e, rcnt);
  }

  lemma SameIsOk(s: State, f: FileState, n: nat, t: State, e: FileState, h: FileState)
    requires SameFile(s, f, n, t, e) && Alike(e, h) && InPosition(t.geo, h) && h.fptr <= n
    ensures FileOk(t, h, n) && SameFile(s, f, n, t, h)
  {
    hide Fat, Logical, SoundLayout, IsFileSector, Sect, InPosition;
  }

  lemma NoPiece(c: seq<byte>, at: nat)
    requires at <= |c|
    ensures IsPiece([], c, at)
  {
  }

  lemma PieceGrows(x: seq<byte>, y: seq<byte>, c: seq<byte>, at: nat)
    requires IsPiece(x, c, at) && IsPiece(y, c, at + |x|)
    ensures IsPiece(x + y, c, at)
  {
  }

  // What a round of the loop means for the file, and for the buffer (w at first, y before the round,
  // z after it).
  lemma RoundKeepsFile(s: State, f: FileState, n: nat, t: State, e: FileState, u: State, h: FileState, d: FileState)
    requires SameFile(s, f, n, t, e) && SameFile(t, e, n, u, h)
    requires Alike(h, d) && InPosition(u.geo, d) && d.fptr <= n
    ensures FileOk(u, d, n) && SameFile(s, f, n, u, d)
  {
    hide Fat, Logical, SoundLayout, FileCore, SameFile, InPosition;
    SameCompose(s, f, n, t, e, u, h);
    SameIsOk(s, f, n, u, h, d);
  }

  lemma RoundReads(w: seq<byte>, y: seq<byte>, z: seq<byte>, br: nat, rcnt: nat, c: seq<byte>, at: nat)
    requires br + rcnt <= |w| == |y| == |z|
    requires IsPiece(y[..br], c, at) && y[br..] == w[br..]
    requires z[..br] == y[..br] && IsPiece(z[br..br + rcnt], c, at + br) && z[br + rcnt..] == y[br + rcnt..]
    ensures IsPiece(z[..br + rcnt], c, at) && z[br + rcnt..] == w[br + rcnt..]
  {
    hide IsPiece;
    assert z[..br + rcnt] == z[..br] + z[br..br + rcnt];
    PieceGrows(z[..br], z[br..br + rcnt], c, at);
    assert y[br + rcnt..] == y[br..][rcnt..] && w[br + rcnt..] == w[br..][rcnt..];
  }

  // f_read: reads up to btr bytes from the position on to buff; br bytes have been read.
  method Read(fp: Fil, buff: array<byte>, btr: u32) returns (res: FResult, br: u32)
    requires fp.Ready() && FileOk(fp.fs.Now(), fp.At(), fp.fsize) && buff != fp.buf && buff != fp.fs.win
    requires btr <= buff.Length
    modifies fp`clust, fp`dirty, fp`dsect, fp`fptr, fp`err, fp.buf, fp.fs`wflag, fp.fs`winsect, fp.fs.win, fp.fs.disk, buff
    ensures fp.Ready()
    ensures old(fp.err) != Ok ==> res == old(fp.err)
    ensures old(fp.err) == Ok && !fp.canRead ==> res == Denied
    ensures old(fp.err) != Ok || !fp.canRead ==>
      && br == 0 && fp.At() == old(fp.At()) && fp.err == old(fp.err) && fp.fs.Now() == old(fp.fs.Now())
      && buff[..] == old(buff[..])
    ensures old(fp.err) == Ok && fp.canRead ==>
      && res == fp.err && (res == Ok || (res == DiskErr && !fp.fs.disk.reliable))
      && fp.fptr == old(fp.fptr) + br && br <= Min(btr, fp.fsize - old(fp.fptr))
      && IsPiece(buff[..br], old(Bytes(fp.fs.Now(), fp.At(), fp.fsize)), old(fp.fptr))
    ensures br <= btr && (old(fp.err) == Ok && res == Ok ==> buff[br..] == old(buff[br..]))
    ensures old(fp.err) == Ok && res == Ok ==>
      && FileOk(fp.fs.Now(), fp.At(), fp.fsize) && SameFile(old(fp.fs.Now()), old(fp.At()), fp.fsize, fp.fs.Now(), fp.At())
      && br == Min(btr, fp.fsize - old(fp.fptr))
  {
    hide Fat, Logical, SoundLayout, FileCore, SameFile, IsPiece, IsFileSector, InPosition, Bytes, Sect;
    ghost var s, f, n := fp.fs.Now(), fp.At(), fp.fsize;
    br := 0;
    if fp.err != Ok {
      return fp.err, br;
    }
    if !fp.canRead {
      return Denied, br;
    }
    res := Ok;
    var rest: u32 := btr;
    if rest > fp.fsize - fp.fptr {
      rest := fp.fsize - fp.fptr;
    }
    SameRefl(s, f, n, f);
    NoPiece(Bytes(s, f, n), f.fptr);
    while rest > 0
      invariant fp.Ready() && FileOk(fp.fs.Now(), fp.At(), n) && SameFile(s, f, n, fp.fs.Now(), fp.At())
      invariant br + rest <= btr && 0 <= rest
      invariant res == Ok && br + rest == Min(btr, n - f.fptr) && fp.fptr == f.fptr + br && fp.err == Ok
      invariant IsPiece(buff[..br], Bytes(s, f, n), f.fptr)
      invariant buff[br..] == old(buff[br..])
    {
      ghost var t, e, y := fp.fs.Now(), fp.At(), buff[..];
      SameBytes(s, f, n, t, e);
      var rcnt;
      res, rcnt := ReadSome(fp, buff, br, rest, n);
      if res != Ok {
        fp.err := res;
        assert buff[..br] == y[..br];
        return;
      }
      ghost var u, h := fp.fs.Now(), fp.At();
      fp.fptr := fp.fptr + rcnt;
      RoundKeepsFile(s, f, n, t, e, u, h, fp.At());
      RoundReads(old(buff[..]), y, buff[..], br, rcnt, Bytes(s, f, n), f.fptr);
      br := br + rcnt;
      rest := rest - rcnt;
    }
  }
}
