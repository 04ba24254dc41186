// What f_read, f_write and f_lseek leave alone: the other files of the volume.
module FileSafety {
  import opened Words
  import opened Volume
  import opened FatTable
  import opened Chains
  import opened FileModel
  import opened FileSteps
  import opened FileWrites
  import opened FileStores
  import opened DirTable
  import FileReads

  predicate AreDisjoint(c: seq<nat>, d: seq<nat>) {
    forall i, j :: 0 <= i < |c| && 0 <= j < |d| ==> c[i] != d[j]
  }

  // The clusters a file has taken are none of another chain.
  lemma StaysDisjoint(g: Geometry, v: Image, chain: seq<nat>, w: Image, longer: seq<nat>, other: seq<nat>)
    requires Holds(g, v) && Grown(g, v, chain, w, longer) && IsChain(Fat(g, v), other) && AreDisjoint(chain, other)
    ensures AreDisjoint(longer, other)
  {
    hide Fat, IsFileSector, IsChain;
    forall i, j | 0 <= i < |longer| && 0 <= j < |other|
      ensures longer[i] != other[j]
    {
      ChainIsUsed(Fat(g, v), other, j);
      if i >= |chain| {
        assert WasFree(g, v, longer[i]);
      }
    }
  }

  lemma SameSector(g: Geometry, c: seq<nat>, p: nat, d: seq<nat>, q: nat)
    requires AreClusters(g, c) && AreClusters(g, d) && InChain(g, c, p) && InChain(g, d, q)
    requires Sect(g, c, p) == Sect(g, d, q)
    ensures c[ClusterIndex(g, p)] == d[ClusterIndex(g, q)]
  {
    hide SoundLayout, ClustToSect, ClusterIndex, SectorIndex;
    PlaceInBlocks(g, c[ClusterIndex(g, p)], d[ClusterIndex(g, q)], SectorIndex(g, p), SectorIndex(g, q));
  }

  // Chains without a common cluster have no common sector.
  lemma SectorsAreDisjoint(g: Geometry, c: seq<nat>, d: seq<nat>, i: nat)
    requires AreClusters(g, c) && AreClusters(g, d) && AreDisjoint(c, d) && IsFileSector(g, c, i)
    ensures !IsFileSector(g, d, i)
  {
    hide SoundLayout, Sect, ClusterIndex;
    if IsFileSector(g, d, i) {
      var p :| 0 <= p && InChain(g, c, p) && i == Sect(g, c, p);
      var q :| 0 <= q && InChain(g, d, q) && i == Sect(g, d, q);
      SameSector(g, c, p, d, q);
    }
  }

  // Whatever is done to one file, another file of the volume keeps its chain and its contents.
  lemma OtherFileIsKept(s: State, f: FileState, n: nat, t: State, e: FileState, m: nat, at: nat, d: seq<byte>,
                        other: seq<nat>, size: nat)
    requires Change(s, f, n, t, e, m, at, d)
    requires IsChain(Fat(s.geo, Logical(s)), other) && AreDisjoint(f.chain, other)
    requires AreClusters(s.geo, other) && Covers(s.geo, other, size)
    ensures IsChain(Fat(t.geo, Logical(t)), other) && AreDisjoint(e.chain, other)
    ensures Contents(t.geo, Meant(t, e), other, size) == Contents(s.geo, Meant(s, f), other, size)
  {
    hide Fat, Logical, Meant, InChain, Sect, Bytes, Mirrored, SoundLayout, Follows, Contents;
    var g := s.geo;
    MeantFat(s, f, n);
    MeantFat(t, e, m);
    StaysDisjoint(g, Meant(s, f), f.chain, Meant(t, e), e.chain, other);
    forall j | 0 <= j < |other|
      ensures other[j] !in e.chain && IsCluster(Fat(g, Logical(s)), other[j])
    {
      ChainIsUsed(Fat(g, Logical(s)), other, j);
    }
    ChainKept(Fat(g, Logical(s)), Fat(g, Logical(t)), other);
    forall i | IsFileSector(g, other, i)
      ensures AgreeAt(Meant(s, f), Meant(t, e), i)
    {
      var q :| 0 <= q && InChain(g, other, q) && i == Sect(g, other, q);
      SectInData(g, other, q);
      SectorsAreDisjoint(g, other, e.chain, i);
    }
    ContentsElsewhere(g, Meant(s, f), other, Meant(t, e), other, size);
  }

  // The volume at the sectors of another chain.
  lemma OtherSectorIsKept(s: State, f: FileState, n: nat, t: State, e: FileState, m: nat, at: nat, d: seq<byte>,
                          other: seq<nat>, i: nat)
    requires Change(s, f, n, t, e, m, at, d)
    requires AreClusters(s.geo, other) && AreDisjoint(e.chain, other) && IsFileSector(s.geo, other, i)
    ensures i < |s.data| && i < |t.data| && Logical(t)[i] == Logical(s)[i] && !InFat(s.geo, i)
  {
    hide Fat, Logical, InChain, Sect, Bytes, Mirrored, SoundLayout, IsFileSector, Covers;
    InOtherFile(s.geo, other, i);
    SectorsAreDisjoint(s.geo, other, e.chain, i);
    if IsFileSector(s.geo, f.chain, i) {
      LongerFile(s.geo, f.chain, e.chain, i);
    }
  }

  lemma InOtherFile(g: Geometry, other: seq<nat>, i: int)
    requires AreClusters(g, other) && IsFileSector(g, other, i)
    ensures g.database <= i < DataEnd(g) < ALL_ONES && !InFat(g, i)
  {
    hide Sect, InChain, SoundLayout;
    AreasInOrder(g);
    SmallVolume(g);
    var q :| 0 <= q && InChain(g, other, q) && i == Sect(g, other, q);
    SectInData(g, other, q);
  }

  lemma SmallVolume(g: Geometry)
    ensures DataEnd(g) < ALL_ONES
  {
  }

  lemma LongerFile(g: Geometry, chain: seq<nat>, longer: seq<nat>, i: nat)
    requires chain <= longer && IsFileSector(g, chain, i)
    ensures IsFileSector(g, longer, i)
  {
    hide SoundLayout, ClustToSect;
    var q :| 0 <= q && InChain(g, chain, q) && i == Sect(g, chain, q);
    assert InChain(g, longer, q) && i == Sect(g, longer, q);
  }

  // Whatever is done to one open file, another open file of the volume stays in order, at its
  // position and with its contents, including what its buffer holds.
  lemma OtherOpenFileIsKept(s: State, f: FileState, n: nat, t: State, e: FileState, m: nat, at: nat, d: seq<byte>,
                            h: FileState, k: nat)
    requires Change(s, f, n, t, e, m, at, d) && FileOk(s, h, k) && AreDisjoint(f.chain, h.chain)
    ensures FileOk(t, h, k) && AreDisjoint(e.chain, h.chain) && Bytes(t, h, k) == Bytes(s, h, k)
  {
    hide Fat, Logical, Meant, InChain, Sect, Mirrored, SoundLayout, Contents, IsFileSector, InPosition;
    if h.chain != [] {
      OtherFileIsKept(s, f, n, t, e, m, at, d, h.chain, k);
    }
    forall i | IsFileSector(s.geo, h.chain, i)
      ensures AgreeAt(Overlay(Logical(s), h), Overlay(Logical(t), h), i) && i != t.winsect
      ensures Logical(t)[i] == Logical(s)[i]
    {
      InOtherFile(s.geo, h.chain, i);
      OtherSectorIsKept(s, f, n, t, e, m, at, d, h.chain, i);
    }
    ContentsElsewhere(s.geo, Overlay(Logical(s), h), h.chain, Overlay(Logical(t), h), h.chain, k);
  }

  // What has been written is what a later read of the same bytes returns, wherever the position has
  // been in between.
  lemma ReadBack(s: State, f: FileState, n: nat, t: State, e: FileState, m: nat, at: nat, d: seq<byte>,
                 u: State, h: FileState, x: seq<byte>)
    requires Change(s, f, n, t, e, m, at, d) && Stretched(t, e, m, u, h)
    requires |x| == |d| && FileCore(u, h, m) && FileReads.IsPiece(x, Bytes(u, h, m), at)
    ensures x == d
  {
    hide Logical, Meant, FileCore, Mirrored, Grown, Bytes;
    assert Splice(Bytes(t, e, m), 0, []) == Bytes(t, e, m);
    assert Bytes(u, h, m)[at..at + |d|] == d;
  }
}
