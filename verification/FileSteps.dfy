// The steps that f_read, f_write and f_lseek are made of, as changes of the state of the file
// system and of the file object, and what each does to the byte array and to the volume.
module FileSteps {
  import opened Words
  import opened Volume
  import opened FatTable
  import opened Chains
  import opened DirTable
  import opened FileModel

  // The volume that the window and the file's buffer together stand for.
  ghost function Meant(s: State, f: FileState): (v: Image)
    ensures |v| == |s.data|
  {
    Overlay(Logical(s), f)
  }

  // ----- positions

  // The current cluster is the one of the byte at the position.
  predicate HasCluster(g: Geometry, f: FileState) {
    InChain(g, f.chain, f.fptr / SS) && f.clust == f.chain[ClusterIndex(g, f.fptr / SS)]
  }

  predicate HasBuffer(g: Geometry, f: FileState) {
    HasCluster(g, f) && f.dsect == Sect(g, f.chain, f.fptr / SS)
  }

  lemma BeforeBoundary(k: nat)
    requires k > 0
    ensures (k - 1) / SS == if k % SS == 0 then k / SS - 1 else k / SS
  {
  }

  // Away from a cluster boundary the current cluster is that of the position.
  lemma InsideCluster(g: Geometry, f: FileState)
    requires InPosition(g, f) && f.fptr > 0
    requires f.fptr % SS != 0 || SectorIndex(g, f.fptr / SS) != 0
    ensures HasCluster(g, f)
    ensures f.fptr % SS != 0 ==> HasBuffer(g, f)
  {
    hide SoundLayout, Sect, ClusterIndex, SectorIndex;
    BeforeBoundary(f.fptr);
    if f.fptr % SS == 0 {
      BeforeSector(g, f.fptr / SS);
    }
  }

  // At a cluster boundary it is the cluster before.
  lemma AtClusterBoundary(g: Geometry, f: FileState)
    requires InPosition(g, f) && f.fptr > 0
    requires f.fptr % SS == 0 && SectorIndex(g, f.fptr / SS) == 0
    ensures var i := ClusterIndex(g, f.fptr / SS) - 1; 0 <= i < |f.chain| && f.clust == f.chain[i]
  {
    hide SoundLayout, Sect, ClusterIndex, SectorIndex;
    BeforeBoundary(f.fptr);
    BeforeSector(g, f.fptr / SS);
  }

  lemma Advance(k: nat, r: nat)
    requires r > 0
    ensures k % SS + r <= SS ==> (k + r - 1) / SS == k / SS
    ensures k % SS + r < SS ==> (k + r) / SS == k / SS
    ensures k % SS + r == SS ==> (k + r) % SS == 0
    ensures k % SS == 0 ==> (k + r * SS - 1) / SS == k / SS + (r - 1) && (k + r * SS) % SS == 0
  {
    if k % SS == 0 {
      assert k + r * SS - 1 == SS * (k / SS + (r - 1)) + (SS - 1);
    }
  }

  // The position after r bytes of the buffer's sector.
  lemma AfterBytes(g: Geometry, f: FileState, r: nat)
    requires HasBuffer(g, f) && r > 0 && f.fptr % SS + r <= SS
    ensures InPosition(g, f.(fptr := f.fptr + r)) && InChain(g, f.chain, (f.fptr + r - 1) / SS)
  {
    hide SoundLayout, Sect, ClusterIndex, SectorIndex;
    Advance(f.fptr, r);
  }

  // The position after n sectors of the current cluster.
  lemma AfterSectors(g: Geometry, f: FileState, n: nat)
    requires AreClusters(g, f.chain) && HasCluster(g, f) && f.fptr % SS == 0
    requires n > 0 && SectorIndex(g, f.fptr / SS) + n <= g.csize
    ensures InPosition(g, f.(fptr := f.fptr + n * SS)) && InChain(g, f.chain, (f.fptr + n * SS - 1) / SS)
  {
    hide SoundLayout, Sect, ClusterIndex, SectorIndex;
    Advance(f.fptr, n);
    SectRun(g, f.chain, f.fptr / SS, n - 1);
  }

  // ----- reading

  // It is the same volume on the same device, whose FAT copies have stayed equal if they were and
  // the device is reliable.
  // The window is where it was, on a FAT sector, or on none.
  ghost predicate SameVolume(s: State, t: State) {
    && (t.winsect == s.winsect || t.winsect == ALL_ONES || InFat(s.geo, t.winsect))
    && t.geo == s.geo && |t.data| == |s.data| && t.reliable == s.reliable
    && (s.reliable && Mirrored(s) ==> Mirrored(t))
  }

  // Everything that matters is as before: the file's chain, its bytes, the rest of the volume.
  ghost predicate SameFile(s: State, f: FileState, n: nat, t: State, e: FileState) {
    && FileCore(t, e, n) && e.chain == f.chain && e.sclust == f.sclust
    && Meant(t, e) == Meant(s, f) && SameVolume(s, t)
  }

  lemma SameCompose(s: State, f: FileState, n: nat, t: State, e: FileState, u: State, d: FileState)
    requires SameFile(s, f, n, t, e) && SameFile(t, e, n, u, d)
    ensures SameFile(s, f, n, u, d)
  {
    hide FileCore, Meant, Mirrored;
  }

  // The bytes do not depend on position and size.
  lemma SameBytes(s: State, f: FileState, n: nat, t: State, e: FileState)
    requires FileCore(s, f, n) && SameFile(s, f, n, t, e)
    ensures Bytes(t, e, n) == Bytes(s, f, n)
  {
    hide Logical, Contents;
  }

  // Moving the window to FAT sectors.
  lemma WindowKeepsFile(s: State, f: FileState, n: nat, t: State)
    requires FileCore(s, f, n) && Quiet(s, t)
    requires t.winsect == s.winsect || t.winsect == ALL_ONES || InFat(s.geo, t.winsect)
    ensures SameFile(s, f, n, t, f)
  {
    hide Logical, Fat, Sect, InChain;
    QuietKeepsView(s, t);
    if t.winsect != s.winsect {
      FilesAreElsewhere(s.geo, f.chain, t.winsect, |s.data|);
    }
  }

  lemma FilesAreElsewhere(g: Geometry, chain: seq<nat>, i: nat, size: nat)
    requires AreClusters(g, chain) && DataEnd(g) <= size < ALL_ONES && (i == ALL_ONES || InFat(g, i))
    ensures !IsFileSector(g, chain, i)
  {
    hide Sect, InChain, SoundLayout;
    if IsFileSector(g, chain, i) {
      var q :| 0 <= q && InChain(g, chain, q) && i == Sect(g, chain, q);
      SectInData(g, chain, q);
    }
  }

  // What a sector of the file holds, on the disk and in the buffer.
  lemma SectorOfFile(s: State, f: FileState, n: nat, q: nat)
    requires FileCore(s, f, n) && InChain(s.geo, f.chain, q)
    ensures var i := Sect(s.geo, f.chain, q);
      && s.geo.database <= i < DataEnd(s.geo) <= |s.data| && i != s.winsect && IsFileSector(s.geo, f.chain, i)
      && Meant(s, f)[i] == (if f.dirty && f.dsect == i then f.buf else s.data[i])
      && (f.dsect == i ==> f.buf == Meant(s, f)[i])
  {
    hide Fat, Sect, InChain, SoundLayout;
    SectInData(s.geo, f.chain, q);
    AreasInOrder(s.geo);
    assert IsFileSector(s.geo, f.chain, Sect(s.geo, f.chain, q));
  }

  lemma FileSectorFacts(s: State, f: FileState, n: nat, i: nat)
    requires FileCore(s, f, n) && IsFileSector(s.geo, f.chain, i)
    ensures s.geo.database <= i < DataEnd(s.geo) <= |s.data| && !IsHidden(s.geo, i)
    ensures i != s.winsect && i != 0 && i < ALL_ONES && Logical(s)[i] == s.data[i]
  {
    hide Fat, Sect, InChain, SoundLayout;
    var q :| 0 <= q && InChain(s.geo, f.chain, q) && i == Sect(s.geo, f.chain, q);
    SectInData(s.geo, f.chain, q);
    AreasInOrder(s.geo);
  }

  // Writing a dirty buffer back.
  lemma FlushKeepsFile(s: State, f: FileState, n: nat, t: State)
    requires FileCore(s, f, n) && f.dirty
    requires t == s.(data := t.data, history := t.history) && f.dsect < |s.data| && t.data == s.data[f.dsect := f.buf]
    ensures SameFile(s, f, n, t, f.(dirty := false))
  {
    hide Fat, Sect, InChain, Logical, SoundLayout;
    FileSectorFacts(s, f, n, f.dsect);
    OneWritten(s.data, f.dsect, f.buf);
    OneWritten(Logical(s), f.dsect, f.buf);
    WrittenIsLogical(s, t, f.dsect, f.buf, 1);
    WrittenKeepsFat(s.geo, Logical(s), f.dsect, f.buf, 1);
  }

  // Loading sector i of the file into a clean buffer.
  lemma LoadKeepsFile(s: State, f: FileState, n: nat, i: nat, b: Sector)
    requires FileCore(s, f, n) && !f.dirty && IsFileSector(s.geo, f.chain, i)
    requires i < |s.data| && b == s.data[i]
    ensures SameFile(s, f, n, s, f.(dsect := i, buf := b))
  {
    hide Fat, Sect, InChain, Logical, SoundLayout;
    FileSectorFacts(s, f, n, i);
  }

  // The chain of a file is linked in the FAT.
  lemma ChainIsLinked(s: State, f: FileState, n: nat, i: nat)
    requires FileCore(s, f, n) && i < |f.chain|
    ensures 2 <= f.chain[i] < s.geo.nFatent
    ensures i + 1 < |f.chain| ==> Fat(s.geo, Logical(s))[f.chain[i]] == f.chain[i + 1]
    ensures i + 1 == |f.chain| ==> Fat(s.geo, Logical(s))[f.chain[i]] >= s.geo.nFatent
  {
    hide Fat, Logical, Sect, InChain;
    assert Follows(Fat(s.geo, Logical(s)), f.chain, i);
  }

  // Position, size and current cluster do not matter to the bytes.
  ghost predicate Alike(f: FileState, e: FileState) {
    e == f.(fptr := e.fptr, fsize := e.fsize, clust := e.clust)
  }

  lemma SameElsewhere(s: State, f: FileState, n: nat, t: State, e: FileState, d: FileState)
    requires SameFile(s, f, n, t, e) && Alike(e, d)
    ensures SameFile(s, f, n, t, d)
  {
    hide Logical, Fat, IsFileSector, Covers, IsChain;
  }

  lemma SameRefl(s: State, f: FileState, n: nat, e: FileState)
    requires FileCore(s, f, n) && Alike(f, e)
    ensures SameFile(s, f, n, s, e)
  {
    hide Logical, Fat, IsFileSector, Covers, IsChain;
  }
}
