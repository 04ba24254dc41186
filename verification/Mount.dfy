// The layout part of find_volume: what the boot sector says about a volume, which volumes are
// accepted, and that the areas of an accepted volume are where the rest of FatFs expects them.
module Mount {
  import opened Words
  import opened Volume
  import opened DirTable
  import opened Arith
  import opened Codecs

  // Byte offsets in the boot sector.
  const BYTES_PER_SECTOR := 11
  const SECTORS_PER_CLUSTER := 13
  const RESERVED := 14
  const NUM_FATS := 16
  const ROOT_ENTRIES := 17
  const TOTAL16 := 19
  const FAT_SIZE16 := 22
  const TOTAL32 := 32
  const FAT_SIZE32 := 36
  const ROOT_CLUSTER := 44

  // Minimum number of clusters of FAT16 and FAT32.
  const MIN_FAT16 := 4086
  const MIN_FAT32 := 65526

  // The numbers of the BIOS parameter block that matter.
  datatype Params = Params(
    bytesPerSector: nat, csize: nat, nrsv: nat, nFats: nat, nRootdir: nat, tsect: nat, fatSize: nat, rootClus: nat)

  function ParamsOf(w: Sector): Params {
    Params(
      LdWord(w, BYTES_PER_SECTOR), w[SECTORS_PER_CLUSTER], LdWord(w, RESERVED), w[NUM_FATS], LdWord(w, ROOT_ENTRIES),
      if LdWord(w, TOTAL16) != 0 then LdWord(w, TOTAL16) else LdDword(w, TOTAL32),
      if LdWord(w, FAT_SIZE16) != 0 then LdWord(w, FAT_SIZE16) else LdDword(w, FAT_SIZE32),
      LdDword(w, ROOT_CLUSTER))
  }

  // Storing a field in the boot sector changes what is read of it, and nothing else: the sector size, the
  // cluster size, the reserved sectors, the number of FATs, the entries of the root directory, and its
  // first cluster.
  lemma FieldsAreRead(w: Sector, x: nat, c: byte, d: u32)
    requires x < 0x1_0000
    ensures ParamsOf(StWord(w, 11, x)) == ParamsOf(w).(bytesPerSector := x)
    ensures ParamsOf(w[13 := c]) == ParamsOf(w).(csize := c as nat)
    ensures ParamsOf(StWord(w, 14, x)) == ParamsOf(w).(nrsv := x)
    ensures ParamsOf(w[16 := c]) == ParamsOf(w).(nFats := c as nat)
    ensures ParamsOf(StWord(w, 17, x)) == ParamsOf(w).(nRootdir := x)
    ensures ParamsOf(StDword(w, 44, d)) == ParamsOf(w).(rootClus := d as nat)
  {
    WordIsRead(w, 11, x);
    WordIsRead(w, 14, x);
    WordIsRead(w, 17, x);
    DwordIsRead(w, 44, d);
  }

  // The volume size and the FAT size have two fields each, of which the first counts unless it is 0.
  lemma SizesAreRead(w: Sector, x: nat, d: u32)
    requires x < 0x1_0000
    ensures ParamsOf(StWord(w, 19, x)) == ParamsOf(w).(tsect := if x != 0 then x else LdDword(w, 32))
    ensures ParamsOf(StDword(w, 32, d)) == ParamsOf(w).(tsect := if LdWord(w, 19) != 0 then LdWord(w, 19) else d)
    ensures ParamsOf(StWord(w, 22, x)) == ParamsOf(w).(fatSize := if x != 0 then x else LdDword(w, 36))
    ensures ParamsOf(StDword(w, 36, d)) == ParamsOf(w).(fatSize := if LdWord(w, 22) != 0 then LdWord(w, 22) else d)
  {
    WordIsRead(w, 19, x);
    WordIsRead(w, 22, x);
    DwordIsRead(w, 32, d);
    DwordIsRead(w, 36, d);
  }

  lemma WordIsRead(w: Sector, o: nat, x: nat)
    requires o + 2 <= SS && x < 0x1_0000
    ensures LdWord(StWord(w, o, x), o) == x
    ensures forall k :: 0 <= k < SS && !(o <= k < o + 2) ==> StWord(w, o, x)[k] == w[k]
  {
    WordOfSt(w, o, x);
  }

  lemma DwordIsRead(w: Sector, o: nat, d: u32)
    requires o + 4 <= SS
    ensures LdDword(StDword(w, o, d), o) == d
    ensures forall k :: 0 <= k < SS && !(o <= k < o + 4) ==> StDword(w, o, d)[k] == w[k]
  {
    LdOfSt(w, o, d);
  }

  // ----- what they mean, in numbers without bound

  // Sectors of all FAT copies, of which there are one or two.
  function FatArea(p: Params): nat {
    if p.nFats == 2 then 2 * p.fatSize else p.fatSize
  }

  // Sectors before the data area.
  function SystemSectors(p: Params): nat {
    p.nrsv + FatArea(p) + p.nRootdir / PER_SECTOR
  }

  function Clusters(p: Params): nat
    requires p.csize > 0
  {
    if p.tsect < SystemSectors(p) then 0 else (p.tsect - SystemSectors(p)) / p.csize
  }

  function TypeOf(clusters: nat): FatType {
    if clusters < MIN_FAT16 then FAT12 else if clusters < MIN_FAT32 then FAT16 else FAT32
  }

  // The sub-types by the number of clusters: up to 4085 are FAT12, from 65526 on FAT32.
  lemma TypesByCount(n: nat)
    ensures TypeOf(n) == FAT12 <==> n <= 4085
    ensures TypeOf(n) == FAT16 <==> 4086 <= n <= 65525
    ensures TypeOf(n) == FAT32 <==> n >= 65526
  {
  }

  predicate IsPowerOfTwo(c: int) {
    c in {1, 2, 4, 8, 16, 32, 64, 128}
  }

  // The parameters describe a volume.
  predicate Legal(p: Params) {
    && p.bytesPerSector == SS
    && (p.nFats == 1 || p.nFats == 2)
    && IsPowerOfTwo(p.csize)
    && p.nRootdir % PER_SECTOR == 0
    && p.nrsv > 0
    && Clusters(p) >= 1
    && (p.nRootdir == 0 <==> TypeOf(Clusters(p)) == FAT32)
    && FatBytes(TypeOf(Clusters(p)), Clusters(p) + 2) <= p.fatSize * SS
  }

  function Described(p: Params, bsect: nat): Layout
    requires Legal(p)
  {
    var t := TypeOf(Clusters(p));
    Layout(t, p.csize, p.nFats, p.nRootdir, Clusters(p) + 2, p.fatSize, bsect, bsect + p.nrsv,
           if t == FAT32 then p.rootClus else bsect + p.nrsv + FatArea(p),
           bsect + SystemSectors(p))
  }

  // None of the sums wraps around, the volume ends inside the range of sector numbers, and the
  // clusters of a FAT32 volume have 28-bit numbers below the end mark.
  predicate InRange(p: Params, bsect: nat) {
    && SystemSectors(p) < 0x1_0000_0000
    && bsect + p.tsect < ALL_ONES && bsect + SystemSectors(p) < ALL_ONES
    && p.rootClus <= ALL_ONES
    && (p.csize > 0 ==> Clusters(p) + 2 <= 0x0FFF_FFFF)
  }

  // ----- the code

  // The test that the cluster size is a power of two.
  predicate OneBit(c: byte)
    requires c > 0
    ensures OneBit(c) <==> IsPowerOfTwo(c)
  {
    var b := c as bv8;
    b & (b - 1) == 0
  }

  // The computations of find_volume on the boot sector, in 32-bit arithmetic: the layout of the
  // volume, unless it is rejected.
  method ReadLayout(w: Sector, bsect: u32) returns (res: FResult, g: Layout)
    ensures res == Ok || res == NoFilesystem
    ensures InRange(ParamsOf(w), bsect) ==> (res == Ok <==> Legal(ParamsOf(w)))
    ensures InRange(ParamsOf(w), bsect) && res == Ok ==> g == Described(ParamsOf(w), bsect)
  {
    hide LdWord, LdDword, Legal, InRange, Described;
    res := NoFilesystem;
    g := Layout(FAT12, 0, 0, 0, 0, 0, 0, 0, 0, 0);
    var p := ParamsOf(w);
    if CheckParams(p) {
      res, g := LayOut(p, bsect);
    } else {
      RejectedIsIllegal(p);
    }
  }

  // The checks that concern one number each.
  predicate CheckParams(p: Params) {
    && p.bytesPerSector == SS
    && (p.nFats == 1 || p.nFats == 2)
    && 0 < p.csize < 0x100 && OneBit(p.csize)
    && p.nRootdir % PER_SECTOR == 0
    && p.nrsv > 0
  }

  lemma RejectedIsIllegal(p: Params)
    requires !CheckParams(p)
    ensures !Legal(p)
  {
  }

  // FAT area and system area, as computed in 32 bits.
  function FatArea32(p: Params): nat {
    Wrap32(p.fatSize * p.nFats)
  }

  function SystemSectors32(p: Params): nat {
    Wrap32(p.nrsv + FatArea32(p) + p.nRootdir / PER_SECTOR)
  }

  lemma SumsDoNotWrap(p: Params)
    requires (p.nFats == 1 || p.nFats == 2) && SystemSectors(p) < 0x1_0000_0000
    ensures FatArea32(p) == FatArea(p) && SystemSectors32(p) == SystemSectors(p)
  {
  }

  // The bytes that nFatent entries need, as computed in 32 bits.
  function Needed32(t: FatType, nFatent: nat): nat {
    match t
    case FAT12 => Wrap32(Wrap32(nFatent * 3) as nat / 2 + nFatent % 2)
    case FAT16 => Wrap32(nFatent * 2)
    case FAT32 => Wrap32(nFatent * 4)
  }

  // The test that a FAT has too few sectors for its entries.
  predicate TooSmall(t: FatType, nFatent: nat, fatSize: nat) {
    fatSize < Wrap32(Needed32(t, nFatent) + (SS - 1)) as nat / SS
  }

  lemma NeededIsExact(t: FatType, nFatent: nat, fatSize: nat)
    requires nFatent <= 0x0FFF_FFFF
    ensures TooSmall(t, nFatent, fatSize) <==> FatBytes(t, nFatent) > fatSize * SS
  {
    hide Needed32, FatBytes, Wrap32;
    NeededFits(t, nFatent);
    SmallWrap(FatBytes(t, nFatent) + (SS - 1));
    RoundUp(FatBytes(t, nFatent), fatSize);
  }

  lemma NeededFits(t: FatType, nFatent: nat)
    requires nFatent <= 0x0FFF_FFFF
    ensures Needed32(t, nFatent) == FatBytes(t, nFatent) < 0x8000_0000
  {
    hide Wrap32;
    SmallWrap(nFatent * 3);
    SmallWrap(nFatent * 3 / 2 + nFatent % 2);
    SmallWrap(nFatent * 2);
    SmallWrap(nFatent * 4);
  }

  lemma RoundUp(x: nat, n: nat)
    ensures n < (x + (SS - 1)) / SS <==> x > n * SS
  {
  }

  // What the first checks leave to be checked.
  lemma RestOfLegal(p: Params)
    requires CheckParams(p)
    ensures Legal(p) <==>
      && Clusters(p) >= 1
      && (p.nRootdir == 0 <==> TypeOf(Clusters(p)) == FAT32)
      && FatBytes(TypeOf(Clusters(p)), Clusters(p) + 2) <= p.fatSize * SS
  {
    hide Clusters, TypeOf, FatBytes, OneBit;
  }

  // The sub-type, from the number of clusters.
  method Classify(nclst: nat) returns (fmt: FatType)
    ensures fmt == TypeOf(nclst)
  {
    fmt := FAT12;
    if nclst >= MIN_FAT16 {
      fmt := FAT16;
    }
    if nclst >= MIN_FAT32 {
      fmt := FAT32;
    }
  }

  // The layout that the numbers give.
  method LayOut(p: Params, bsect: u32) returns (res: FResult, g: Layout)
    requires CheckParams(p)
    ensures res == Ok || res == NoFilesystem
    ensures InRange(p, bsect) ==> (res == Ok <==> Legal(p))
    ensures InRange(p, bsect) && res == Ok ==> g == Described(p, bsect)
  {
    hide OneBit, FatArea32, SystemSectors32, FatArea, SystemSectors, Needed32, FatBytes, EndMark, EntryLimit, IsPowerOfTwo,
         TypeOf, TooSmall, Legal, Wrap32;
    RestOfLegal(p);
    res := NoFilesystem;
    g := Layout(FAT12, 0, 0, 0, 0, 0, 0, 0, 0, 0);
    var fasize := FatArea32(p);
    var sysect := SystemSectors32(p);
    if InRange(p, bsect) {
      SumsDoNotWrap(p);
    }
    if p.tsect < sysect {
      return;
    }
    var nclst := (p.tsect - sysect) / p.csize;
    if nclst == 0 {
      return;
    }
    var fmt := Classify(nclst);
    var nFatent: nat := Wrap32(nclst + 2);
    var fatbase: nat := Wrap32(bsect + p.nrsv);
    var database: nat := Wrap32(bsect + sysect);
    var dirbase: nat := p.rootClus;
    if fmt == FAT32 {
      if p.nRootdir != 0 {
        return;
      }
    } else {
      if p.nRootdir == 0 {
        return;
      }
      dirbase := Wrap32(fatbase + fasize);
    }
    if InRange(p, bsect) {
      AreasDoNotWrap(p, bsect);
      SmallWrap(nclst + 2);
      SmallWrap(bsect + p.nrsv);
      SmallWrap(bsect + sysect);
      SmallWrap(fatbase + fasize);
      NeededIsExact(fmt, nFatent, p.fatSize);
    }
    if TooSmall(fmt, nFatent, p.fatSize) {
      return;
    }
    res := Ok;
    g := Layout(fmt, p.csize, p.nFats, p.nRootdir, nFatent, p.fatSize, bsect, fatbase, dirbase, database);
  }

  lemma AreasDoNotWrap(p: Params, bsect: nat)
    requires (p.nFats == 1 || p.nFats == 2) && InRange(p, bsect)
    ensures bsect + p.nrsv + FatArea(p) <= bsect + SystemSectors(p) < ALL_ONES
  {
  }

  // ----- the counters of a mounted volume

  // The two numbers of an FSINFO sector, if its signatures are in order.
  predicate IsInfo(w: Sector) {
    LdWord(w, 510) == 0xAA55 && LdDword(w, 0) == 0x4161_5252 && LdDword(w, 484) == 0x6141_7272
  }

  // Where the counters come from when a volume is mounted, with the boot sector in the window: the FSINFO
  // sector of a FAT32 volume that says it has one.
  method LoadCounters(disk: Disk, win: array<byte>, fmt: FatType, bsect: u32) returns (c: Counters)
    requires win.Length == SS
    modifies win
    ensures !(fmt == FAT32 && LdWord(old(win[..]), 48) == 1) ==> c == Counters(ALL_ONES, ALL_ONES, 0x80)
    ensures fmt == FAT32 && LdWord(old(win[..]), 48) == 1 ==>
      if c.flag == 0 then
        var i := Wrap32(bsect + 1);
        i < |disk.data| &&
        c == if IsInfo(disk.data[i]) then Counters(LdDword(disk.data[i], 492), LdDword(disk.data[i], 488), 0)
             else Counters(ALL_ONES, ALL_ONES, 0)
      else c == Counters(ALL_ONES, ALL_ONES, 0x80) && !(disk.reliable && Wrap32(bsect + 1) < |disk.data|)
  {
    hide LdWord, LdDword;
    c := Counters(ALL_ONES, ALL_ONES, 0x80);
    if fmt == FAT32 && LdWord(win[..], 48) == 1 {
      var ok := disk.Read(win, Wrap32(bsect + 1));
      if ok {
        c := Counters(ALL_ONES, ALL_ONES, 0);
        if LdWord(win[..], 510) == 0xAA55 && LdDword(win[..], 0) == 0x4161_5252 && LdDword(win[..], 484) == 0x6141_7272 {
          c := Counters(LdDword(win[..], 492), LdDword(win[..], 488), 0);
        }
      }
    }
  }

  // ----- what acceptance guarantees

  // Every accepted volume has the layout that the rest of FatFs relies on, inside the volume.
  lemma AcceptedIsSound(p: Params, bsect: nat)
    requires Legal(p) && InRange(p, bsect)
    ensures SoundLayout(Described(p, bsect))
    ensures DataEnd(Described(p, bsect)) <= bsect + p.tsect
  {
    hide Clusters, FatBytes, EndMark, TypeOf;
    ClustersFit(p);
    TypeFits(p);
    VolumeEnds(p, bsect);
  }

  lemma VolumeEnds(p: Params, bsect: nat)
    requires Legal(p)
    ensures DataEnd(Described(p, bsect)) == bsect + SystemSectors(p) + p.csize * Clusters(p)
  {
    hide Clusters, FatBytes, EndMark, TypeOf, SystemSectors, FatArea, IsPowerOfTwo;
  }

  lemma ClustersFit(p: Params)
    requires p.csize > 0
    ensures Clusters(p) > 0 ==> SystemSectors(p) + p.csize * Clusters(p) <= p.tsect
  {
  }

  // The type that the number of clusters gives has room for their numbers.
  lemma TypeFits(p: Params)
    requires p.csize > 0 && Clusters(p) >= 1 && Clusters(p) + 2 <= 0x0FFF_FFFF
    ensures 3 <= Clusters(p) + 2 <= EndMark(TypeOf(Clusters(p)))
  {
    hide Clusters;
  }

  // Distinct clusters are disjoint blocks of sectors inside the data area.
  lemma BlocksAreDisjoint(g: Geometry, c: nat, d: nat)
    requires 2 <= c < d < g.nFatent
    ensures g.database <= ClustToSect(g, c)
    ensures ClustToSect(g, c) + g.csize <= ClustToSect(g, d)
    ensures ClustToSect(g, d) + g.csize <= DataEnd(g)
  {
    AreasInOrder(g);
    MulMono(0, c - 2, g.csize);
    MulMono(c - 2 + 1, d - 2, g.csize);
    MulMono(d - 2 + 1, g.nFatent - 2, g.csize);
    assert g.csize * (c - 1) == g.csize * (c - 2) + g.csize;
    assert g.csize * (d - 1) == g.csize * (d - 2) + g.csize;
  }

  // The areas of a volume, by sector.
  datatype Area = Reserved | FirstFat | SecondFat | RootDirectory | Cluster(c: nat) | Outside

  function AreaOf(g: Geometry, s: nat): Area {
    if s < g.volbase then Outside
    else if s < g.fatbase then Reserved
    else if s < g.fatbase + g.fsize then FirstFat
    else if s < FatEnd(g) then SecondFat
    else if s < g.database then RootDirectory
    else if s < DataEnd(g) then Cluster((s - g.database) / g.csize + 2)
    else Outside
  }

  // The areas do not overlap: a sector of the FAT, of its copy, of the root directory or of a
  // cluster is in that area only, and a cluster's sectors are in no other cluster.
  lemma AreasAreDisjoint(g: Geometry, s: nat)
    ensures InFat(g, s) <==> AreaOf(g, s) == FirstFat
    ensures IsMirror(g, s) <==> AreaOf(g, s) == SecondFat
    ensures g.fsType != FAT32 ==> (g.dirbase <= s < g.dirbase + g.nRootdir / PER_SECTOR <==> AreaOf(g, s) == RootDirectory)
    ensures g.fsType == FAT32 ==> AreaOf(g, s) != RootDirectory
  {
    AreasInOrder(g);
  }

  lemma AreaOfBlock(g: Geometry, c: nat, k: nat)
    requires 2 <= c < g.nFatent && k < g.csize
    ensures AreaOf(g, ClustToSect(g, c) + k) == Cluster(c)
  {
    AreasInOrder(g);
    if c + 1 < g.nFatent {
      BlocksAreDisjoint(g, c, c + 1);
      BlocksAreDisjoint(g, c, g.nFatent - 1);
    } else {
      LastBlock(g);
    }
    MulMono(0, c - 2, g.csize);
    Quotient(g.csize * (c - 2) + k, g.csize, c - 2, k);
  }

  lemma LastBlock(g: Geometry)
    ensures g.database <= ClustToSect(g, g.nFatent - 1)
    ensures ClustToSect(g, g.nFatent - 1) + g.csize == DataEnd(g)
  {
    AreasInOrder(g);
    MulMono(0, g.nFatent - 3, g.csize);
    assert g.csize * (g.nFatent - 2) == g.csize * (g.nFatent - 3) + g.csize;
  }
}
