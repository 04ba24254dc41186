// What a program sees of a file: opening it, and reading back what it has written.
module FileUse {
  import opened Words
  import opened Volume
  import opened FatTable
  import opened Chains
  import opened Arith
  import opened DirTable
  import opened FileModel
  import opened FileSteps
  import opened FileWrites
  import opened FileReads
  import opened FileRoom
  import opened FileStores
  import opened FileSeeks
  import opened FileSafety

  // A file of n bytes on the volume: its directory entry names the first cluster of a chain that has
  // room for them, and the window shows none of it.
  ghost predicate IsStored(s: State, sclust: nat, chain: seq<nat>, n: nat) {
    && Sound(s) && n < 0x1_0000_0000
    && (if chain == [] then sclust == 0 else IsChain(Fat(s.geo, Logical(s)), chain) && sclust == chain[0])
    && AreClusters(s.geo, chain) && FileModel.AreDistinct(chain) && Covers(s.geo, chain, n)
    && !IsFileSector(s.geo, chain, s.winsect)
  }

  // The end of f_open: a file object for a file that has been found.
  method Open(fs: Fatfs, canRead: bool, canWrite: bool, sclust: u32, fsize: u32, ghost chain: seq<nat>) returns (fp: Fil)
    requires fs.Valid() && IsStored(fs.Now(), sclust, chain, fsize)
    ensures fresh(fp) && fresh(fp.buf) && fp.fs == fs && fp.canRead == canRead && fp.canWrite == canWrite
    ensures fp.Ready() && FileOk(fp.fs.Now(), fp.At(), fp.fsize) && fp.err == Ok
    ensures fp.fptr == 0 && fp.fsize == fsize && fp.chain == chain
    ensures Meant(fs.Now(), fp.At()) == Logical(fs.Now())
  {
    fp := new Fil(fs, canRead, canWrite, sclust, fsize, chain);
    OpenedIsOk(fs.Now(), fp.At());
  }

  // A chain has room for the file, so that a seek within the file does not stop short.
  lemma SeekWithin(s: State, f: FileState, n: nat, ofs: nat, canWrite: bool)
    requires FileCore(s, f, n) && ofs <= n
    ensures !StoppedShort(s, f, ofs, canWrite)
  {
    hide Logical, IsFileSector, Fat, IsChain, IsFull, SoundLayout;
    if n > 0 {
      var q := (n - 1) / SS;
      IndicesOf(s.geo, q);
      MulMono(ClusterIndex(s.geo, q) + 1, |f.chain|, ClusterBytes(s.geo));
      RoomFor(s.geo, n, ClusterIndex(s.geo, q), SectorIndex(s.geo, q));
    }
  }

  lemma RoomFor(g: Geometry, n: nat, k: nat, j: nat)
    requires n > 0 && (n - 1) / SS == g.csize * k + j && j < g.csize
    ensures n <= ClusterBytes(g) * (k + 1)
  {
    hide SoundLayout;
  }

  // A full volume stays full.
  lemma FullStays(s: State, f: FileState, n: nat, t: State, e: FileState, m: nat, at: nat, d: seq<byte>)
    requires Change(s, f, n, t, e, m, at, d) && IsFull(s.geo, Logical(s))
    ensures IsFull(t.geo, Logical(t))
  {
    hide Logical, Meant, IsFileSector, Fat, Mirrored, Bytes, Covers, IsChain;
    MeantFat(s, f, n);
    MeantFat(t, e, m);
    forall c | IsCluster(Fat(t.geo, Logical(t)), c)
      ensures Fat(t.geo, Logical(t))[c] != 0
    {
      if c in e.chain {
        var i :| 0 <= i < |e.chain| && e.chain[i] == c;
        ChainIsUsed(Fat(t.geo, Logical(t)), e.chain, i);
      }
    }
  }

  lemma FullToRead(s: State, f: FileState, n: nat, t: State, e: FileState)
    requires FileCore(s, f, n) && SameFile(s, f, n, t, e) && IsFull(s.geo, Logical(s))
    ensures Sound(t) && IsFull(t.geo, Logical(t))
  {
    hide Logical, Meant, IsFileSector, Fat, Mirrored, Covers, IsChain;
    MeantFat(s, f, n);
    MeantFat(t, e, n);
  }

  // A program that opens a file, goes to some place, writes there, goes back and reads: it gets to the
  // place and writes all, or as far as the clusters of the file and the free ones go, and what it reads
  // is what it has written.
  method WriteThenRead(fs: Fatfs, sclust: u32, fsize: u32, ghost chain: seq<nat>, offset: u32, data: array<byte>, out: array<byte>)
    returns (at: nat, bw: nat, br: nat)
    requires fs.Valid() && IsStored(fs.Now(), sclust, chain, fsize) && fs.disk.reliable && !HasBadEntry(fs.geo, fs.View())
    requires data != fs.win && out != fs.win && data != out && data.Length == out.Length && offset + data.Length < 0x1_0000_0000
    modifies out, fs`wflag, fs`winsect, fs`lastClust, fs`freeClust, fs`fsiFlag, fs.win, fs.disk
    ensures br == bw <= data.Length && out[..br] == data[..bw] && data[..] == old(data[..])
    ensures at == Min(offset, old(Room(fs.Now(), chain)))
    ensures at + bw == Min(offset + data.Length, old(Room(fs.Now(), chain)))
    ensures offset + data.Length <= ClusterStart(fs.geo, |chain|) ==> at == offset && bw == data.Length
    ensures fs.Valid() && ((bw == data.Length && at == offset) || IsFull(fs.geo, fs.View()))
  {
    hide FileCore, Logical, Sect, InChain, IsFileSector, SoundLayout, Change, Meant, InPosition, Stretched,
         HasBadEntry, IsFull, SameFile, IsStored, StoppedShort, Bytes, IsPiece, Room, ClusterStart, Tracked, GrewTo, AtEnd;
    var fp := Open(fs, true, true, sclust, fsize, chain);
    ghost var s0, f0, n0 := fs.Now(), fp.At(), fp.fsize;
    ChainIsRoom(s0, f0);
    var res := Seek(fp, offset);
    at := fp.fptr;
    ghost var s1, f1, n1 := fs.Now(), fp.At(), fp.fsize;
    AfterSeek(s0, f0, n0, s1, f1, offset);
    res, bw := Write(fp, data, data.Length);
    ghost var s2, f2, n2 := fs.Now(), fp.At(), fp.fsize;
    AfterWrite(s1, f1, n1, s2, f2, n2, at, data[..bw]);
    res := Seek(fp, at);
    ghost var s3, f3, n3 := fs.Now(), fp.At(), fp.fsize;
    AfterSeek(s2, f2, n2, s3, f3, at);
    res, br := Read(fp, out, bw);
    ReadBack(s1, f1, n1, s2, f2, n2, at, data[..bw], s3, f3, out[..br]);
    if IsFull(s3.geo, Logical(s3)) {
      FullToRead(s3, f3, n3, fs.Now(), fp.At());
    }
  }

  lemma AfterSeek(s: State, f: FileState, n: nat, t: State, e: FileState, ofs: nat)
    requires Stretched(s, f, n, t, e)
    ensures Sound(s) && Sound(t) && (!HasBadEntry(s.geo, Logical(s)) ==> !HasBadEntry(t.geo, Logical(t)))
    ensures IsFull(s.geo, Logical(s)) ==> IsFull(t.geo, Logical(t))
    ensures ofs <= n ==> !StoppedShort(t, e, ofs, true)
    ensures Room(t, e.chain) == Room(s, f.chain)
    ensures StoppedShort(t, e, ofs, true) ==> IsFull(t.geo, Logical(t))
  {
    hide FileCore, IsFull, HasBadEntry, Grown, Mirrored, Meant, Logical, Room;
    CoreIsSound(s, f, n);
    CoreIsSound(t, e, n);
    AfterWrite(s, f, n, t, e, n, 0, []);
    if ofs <= n {
      SeekWithin(t, e, n, ofs, true);
    }
  }

  lemma AfterWrite(s: State, f: FileState, n: nat, t: State, e: FileState, m: nat, at: nat, d: seq<byte>)
    requires Change(s, f, n, t, e, m, at, d)
    ensures Sound(s) && Sound(t) && (!HasBadEntry(s.geo, Logical(s)) ==> !HasBadEntry(t.geo, Logical(t)))
    ensures IsFull(s.geo, Logical(s)) ==> IsFull(t.geo, Logical(t))
    ensures at + |d| <= m && Room(t, e.chain) == Room(s, f.chain)
  {
    hide IsFull, HasBadEntry, Grown, Mirrored, Meant, Logical, IsFileSector, Fat, Room;
    ClustersAreConserved(s, f, n, t, e, m, at, d);
    BadEntryWasThere(s, f, n, t, e, m, at, d);
    if IsFull(s.geo, Logical(s)) {
      FullStays(s, f, n, t, e, m, at, d);
    }
  }
}
