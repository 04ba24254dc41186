// Directory tables: finding entry i directly (dir_sdi) and stepping from entry to entry
// (dir_next, without stretching), over the static root table and over tables laid on a chain.
module DirTable {
  import opened Volume
  import opened Chains
  import opened Arith

  const PER_SECTOR := SS / SZ_DIRE   // directory entries in a sector

  // A place in a directory table: entry index, cluster (0 in a static table), sector, and offset
  // of the entry in the window.
  datatype Place = Place(index: nat, clust: nat, sect: nat, dir: nat)

  datatype Found = At(place: Place) | Stop(res: FResult)

  // clust2sect: 0 for a number that is not a cluster.
  function ClustToSect(g: Geometry, clst: nat): (s: nat) {
    hide SoundLayout;
    if clst < 2 || clst >= g.nFatent then 0 else (clst - 2) * g.csize + g.database
  }

  // The clusters follow each other from the start of the data area on.
  lemma ClustersInOrder(g: Geometry, c: nat)
    requires 2 <= c < g.nFatent
    ensures ClustToSect(g, c) == if c == 2 then g.database else ClustToSect(g, c - 1) + g.csize
  {
    hide SoundLayout;
    assert (c - 2) * g.csize == (c - 3) * g.csize + g.csize;
  }

  // Sector q of a file or table lies in this cluster of its chain, at this sector of the cluster.
  function ClusterIndex(g: Geometry, q: nat): nat {
    AreasInOrder(g);
    q / g.csize
  }

  function SectorIndex(g: Geometry, q: nat): (j: nat)
    ensures j < g.csize
  {
    AreasInOrder(g);
    q % g.csize
  }

  lemma IndicesOf(g: Geometry, q: nat)
    ensures g.csize * ClusterIndex(g, q) + SectorIndex(g, q) == q
  {
  }

  lemma IndicesAre(g: Geometry, q: nat, k: nat, j: nat)
    requires q == g.csize * k + j && j < g.csize
    ensures ClusterIndex(g, q) == k && SectorIndex(g, q) == j
  {
    AreasInOrder(g);
    Quotient(q, g.csize, k, j);
  }

  // Directory entries in a cluster.
  function ClusterEntries(g: Geometry): (n: nat)
    ensures n > 0
  {
    AreasInOrder(g);
    PER_SECTOR * g.csize
  }

  // Dividing an index by the entries of a cluster.
  lemma InCluster(g: Geometry, i: nat)
    ensures i / ClusterEntries(g) == ClusterIndex(g, i / PER_SECTOR)
    ensures i % ClusterEntries(g) / PER_SECTOR == SectorIndex(g, i / PER_SECTOR)
    ensures i % ClusterEntries(g) % PER_SECTOR == i % PER_SECTOR
  {
    hide SoundLayout;
    AreasInOrder(g);
    Split(i, PER_SECTOR, g.csize);
    RestOfCluster(i % ClusterEntries(g), SectorIndex(g, i / PER_SECTOR), i % PER_SECTOR);
  }

  lemma RestOfCluster(x: nat, j: nat, r: nat)
    requires x == PER_SECTOR * j + r && r < PER_SECTOR
    ensures x / PER_SECTOR == j && x % PER_SECTOR == r
  {
  }

  // The cluster k links after c, as get_fat follows them.
  function Nth(f: seq<nat>, c: nat, k: nat): (r: nat)
    decreases k
  {
    if k == 0 then c
    else if IsCluster(f, c) && IsCluster(f, f[c]) then Nth(f, f[c], k - 1)
    else 0
  }

  // First cluster of the table; 0 is the root directory, which in FAT32 is a chain too.
  function FirstCluster(g: Geometry, sclust: nat): nat {
    if sclust == 0 && g.fsType == FAT32 then g.dirbase else sclust
  }

  // The place of entry idx, which lies in cluster c.
  function ChainPlace(g: Geometry, idx: nat, c: nat): Found {
    if ClustToSect(g, c) == 0 then Stop(IntErr)
    else At(Place(idx % 0x1_0000, c, ClustToSect(g, c) + SectorIndex(g, idx / PER_SECTOR), idx % PER_SECTOR * SZ_DIRE))
  }

  // The place dir_sdi finds for index idx.
  function Sdi(g: Geometry, f: seq<nat>, sclust: nat, idx: nat): Found
    requires |f| == g.nFatent
  {
    var clst := FirstCluster(g, sclust);
    if sclust == 1 || sclust >= g.nFatent then Stop(IntErr)
    else if clst == 0 then
      if idx >= g.nRootdir then Stop(IntErr)
      else At(Place(idx % 0x1_0000, 0, g.dirbase + idx / PER_SECTOR, idx % PER_SECTOR * SZ_DIRE))
    else
      ChainPlace(g, idx, Nth(f, clst, ClusterIndex(g, idx / PER_SECTOR)))
  }

  // The place after p, as dir_next finds it when it must not stretch the table.
  function Next(g: Geometry, f: seq<nat>, p: Place): Found
    requires |f| == g.nFatent
  {
    var i := p.index + 1;
    if i % 0x1_0000 == 0 || p.sect == 0 then Stop(NoFile)
    else if i % PER_SECTOR != 0 then At(p.(index := i, dir := i % PER_SECTOR * SZ_DIRE))
    else if p.clust == 0 then
      if i >= g.nRootdir then Stop(NoFile)
      else At(p.(index := i, sect := p.sect + 1, dir := 0))
    else if SectorIndex(g, i / PER_SECTOR) != 0 then At(p.(index := i, sect := p.sect + 1, dir := 0))
    else if !IsCluster(f, p.clust) || f[p.clust] <= 1 then Stop(IntErr)
    else if f[p.clust] >= g.nFatent then Stop(NoFile)
    else At(Place(i, f[p.clust], ClustToSect(g, f[p.clust]), 0))
  }

  // i steps of dir_next from the place dir_sdi finds for index 0.
  function Walked(g: Geometry, f: seq<nat>, sclust: nat, i: nat): Found
    requires |f| == g.nFatent
  {
    if i == 0 then Sdi(g, f, sclust, 0)
    else
      var w := Walked(g, f, sclust, i - 1);
      if w.At? then Next(g, f, w.place) else w
  }

  lemma {:induction false} NthStep(f: seq<nat>, c: nat, k: nat)
    requires k > 0
    ensures var d := Nth(f, c, k - 1);
      Nth(f, c, k) == if IsCluster(f, d) && IsCluster(f, f[d]) then f[d] else 0
    decreases k
  {
    if k > 1 && IsCluster(f, c) && IsCluster(f, f[c]) {
      NthStep(f, f[c], k - 1);
    }
  }

  // How cluster and sector of an index follow from those of the index before.
  lemma NextSector(q: nat, c: nat)
    requires c > 0 && q > 0
    ensures if q % c != 0
      then q / c == (q - 1) / c && q % c == (q - 1) % c + 1
      else q / c == (q - 1) / c + 1
  {
    if q % c != 0 {
      Quotient(q - 1, c, q / c, q % c - 1);
    } else {
      assert q == c * (q / c);
      assert c * (q / c - 1) == c * (q / c) - c;
      Quotient(q - 1, c, q / c - 1, c - 1);
    }
  }

  lemma BeforeSector(g: Geometry, q: nat)
    requires q > 0
    ensures if SectorIndex(g, q) == 0 then ClusterIndex(g, q) == ClusterIndex(g, q - 1) + 1
      else ClusterIndex(g, q) == ClusterIndex(g, q - 1) && SectorIndex(g, q) == SectorIndex(g, q - 1) + 1
  {
    AreasInOrder(g);
    NextSector(q, g.csize);
  }

  lemma PrevSector(i: nat)
    requires i > 0
    ensures (i - 1) / PER_SECTOR == if i % PER_SECTOR == 0 then i / PER_SECTOR - 1 else i / PER_SECTOR
  {
  }

  // dir_sdi(i) finds the place that dir_sdi(0) followed by i steps of dir_next reaches, and the
  // two succeed for the same indices, as long as the index fits its 16 bits.
  lemma {:induction false} SdiWalks(g: Geometry, f: seq<nat>, sclust: nat, i: nat)
    requires |f| == g.nFatent && i < 0x1_0000
    ensures Sdi(g, f, sclust, i).At? <==> Walked(g, f, sclust, i).At?
    ensures Sdi(g, f, sclust, i).At? ==> Walked(g, f, sclust, i) == Sdi(g, f, sclust, i)
  {
    if i > 0 {
      SdiWalks(g, f, sclust, i - 1);
      SdiSteps(g, f, sclust, i);
    }
  }

  // dir_next takes the place of index i - 1 to that of index i, when both exist, and fails when
  // index i has no place.
  ghost predicate StepAgrees(g: Geometry, f: seq<nat>, sclust: nat, i: nat)
    requires |f| == g.nFatent && 0 < i < 0x1_0000
  {
    var here, there := Sdi(g, f, sclust, i - 1), Sdi(g, f, sclust, i);
    && (there.At? ==> here.At?)
    && (here.At? ==> if there.At? then Next(g, f, here.place) == there else Next(g, f, here.place).Stop?)
  }

  lemma SdiSteps(g: Geometry, f: seq<nat>, sclust: nat, i: nat)
    requires |f| == g.nFatent && 0 < i < 0x1_0000
    ensures StepAgrees(g, f, sclust, i)
  {
    hide SoundLayout, Sdi, Next;
    if sclust == 1 || sclust >= g.nFatent {
      NoTable(g, f, sclust, i);
    } else if FirstCluster(g, sclust) == 0 {
      StaticTableSteps(g, f, sclust, i);
    } else if i % PER_SECTOR != 0 || SectorIndex(g, i / PER_SECTOR) != 0 {
      SameClusterSteps(g, f, sclust, i);
    } else {
      NextClusterSteps(g, f, sclust, i);
    }
  }

  lemma HasSector(g: Geometry, c: nat)
    ensures ClustToSect(g, c) != 0 <==> 2 <= c < g.nFatent
  {
    AreasInOrder(g);
  }

  lemma NoTable(g: Geometry, f: seq<nat>, sclust: nat, i: nat)
    requires |f| == g.nFatent && 0 < i < 0x1_0000 && (sclust == 1 || sclust >= g.nFatent)
    ensures StepAgrees(g, f, sclust, i)
  {
    hide SoundLayout, Next;
  }

  lemma StaticTableSteps(g: Geometry, f: seq<nat>, sclust: nat, i: nat)
    requires |f| == g.nFatent && 0 < i < 0x1_0000 && sclust < g.nFatent
    requires FirstCluster(g, sclust) == 0
    ensures StepAgrees(g, f, sclust, i)
  {
    hide SoundLayout, ClustToSect, Nth, ClusterIndex, SectorIndex;
    StaticStep(g, i);
    PrevSector(i);
    var here, there := Sdi(g, f, sclust, i - 1), Sdi(g, f, sclust, i);
    if i - 1 >= g.nRootdir {
      assert here.Stop? && there.Stop?;
    } else if i % PER_SECTOR != 0 {
      assert there == Next(g, f, here.place);
    } else if i < g.nRootdir {
      assert there == Next(g, f, here.place);
    } else {
      assert Next(g, f, here.place).Stop?;
    }
  }

  lemma SameClusterSteps(g: Geometry, f: seq<nat>, sclust: nat, i: nat)
    requires |f| == g.nFatent && 0 < i < 0x1_0000 && sclust < g.nFatent && sclust != 1
    requires FirstCluster(g, sclust) != 0
    requires i % PER_SECTOR != 0 || SectorIndex(g, i / PER_SECTOR) != 0
    ensures StepAgrees(g, f, sclust, i)
  {
    hide SoundLayout, ClustToSect, Nth, ClusterIndex, SectorIndex;
    var q := i / PER_SECTOR;
    PrevSector(i);
    if i % PER_SECTOR == 0 {
      BeforeSector(g, q);
    }
    HasSector(g, Nth(f, FirstCluster(g, sclust), ClusterIndex(g, q)));
  }

  lemma NextClusterSteps(g: Geometry, f: seq<nat>, sclust: nat, i: nat)
    requires |f| == g.nFatent && 0 < i < 0x1_0000 && sclust < g.nFatent && sclust != 1
    requires FirstCluster(g, sclust) != 0
    requires i % PER_SECTOR == 0 && SectorIndex(g, i / PER_SECTOR) == 0
    ensures StepAgrees(g, f, sclust, i)
  {
    hide SoundLayout, ClustToSect, Nth, ClusterIndex, SectorIndex;
    var q := i / PER_SECTOR;
    PrevSector(i);
    BeforeSector(g, q);
    NthStep(f, FirstCluster(g, sclust), ClusterIndex(g, q));
    var c := Nth(f, FirstCluster(g, sclust), ClusterIndex(g, q) - 1);
    HasSector(g, c);
    HasSector(g, Nth(f, FirstCluster(g, sclust), ClusterIndex(g, q)));
  }

  lemma StaticStep(g: Geometry, i: nat)
    requires i > 0
    ensures g.nRootdir > 0 ==> g.fsType != FAT32 && g.dirbase > 0
    ensures i % PER_SECTOR != 0 ==> (i < g.nRootdir <==> i - 1 < g.nRootdir)
  {
  }

  // The 16-bit index ends the walk: no table is stepped through past entry 65535.
  lemma {:induction false} WalkEnds(g: Geometry, f: seq<nat>, sclust: nat, i: nat)
    requires |f| == g.nFatent && i >= 0x1_0000
    ensures Walked(g, f, sclust, i).Stop?
    decreases i
  {
    hide SoundLayout, ClustToSect, Nth, ClusterIndex, SectorIndex;
    if i > 0x1_0000 {
      WalkEnds(g, f, sclust, i - 1);
    } else {
      SdiWalks(g, f, sclust, 0xFFFF);
    }
  }

  // Past a cluster number that is not one, the chain stays at none.
  lemma {:induction false} NthStaysOut(f: seq<nat>, c: nat, k: nat, m: nat)
    requires k <= m && Nth(f, c, k) == 0
    ensures Nth(f, c, m) == 0
    decreases m
  {
    if k < m {
      NthStaysOut(f, c, k, m - 1);
      NthStep(f, c, m);
    }
  }

  // ----- the size of a table

  // s lists the clusters of a table, up to one after which no cluster comes.
  ghost predicate IsTable(f: seq<nat>, s: seq<nat>) {
    forall i :: 0 <= i < |s| ==> LeadsOn(f, s, i)
  }

  predicate LeadsOn(f: seq<nat>, s: seq<nat>, i: int)
    requires 0 <= i < |s|
  {
    IsCluster(f, s[i]) && if i == |s| - 1 then !IsCluster(f, f[s[i]]) else f[s[i]] == s[i + 1]
  }

  // The table has n entries: those of the static root directory, or those of its clusters.
  ghost predicate HasSize(g: Geometry, f: seq<nat>, sclust: nat, n: nat) {
    var c := FirstCluster(g, sclust);
    if sclust == 1 || sclust >= g.nFatent then n == 0
    else if c == 0 then n == g.nRootdir
    else if !IsCluster(f, c) then n == 0
    else exists s :: IsTable(f, s) && s != [] && s[0] == c && n == ClusterEntries(g) * |s|
  }

  // The chains of a well-formed FAT are such tables.
  lemma ChainIsTable(f: seq<nat>, s: seq<nat>)
    requires IsChain(f, s)
    ensures IsTable(f, s)
  {
    forall i | 0 <= i < |s|
      ensures LeadsOn(f, s, i)
    {
      assert Follows(f, s, i);
    }
  }

  lemma {:induction false} NthOfTable(f: seq<nat>, s: seq<nat>, k: nat)
    requires IsTable(f, s) && s != []
    ensures IsCluster(f, Nth(f, s[0], k)) <==> k < |s|
    ensures k < |s| ==> Nth(f, s[0], k) == s[k]
  {
    assert LeadsOn(f, s, 0);
    if k > 0 {
      NthOfTable(f, s, k - 1);
      NthStep(f, s[0], k);
      if k <= |s| {
        assert LeadsOn(f, s, k - 1);
      }
      if k < |s| {
        assert LeadsOn(f, s, k);
      }
    }
  }

  lemma BelowProduct(i: nat, n: nat, k: nat)
    requires n > 0
    ensures i < n * k <==> i / n < k
  {
    if i / n < k {
      MulMono(i / n + 1, k, n);
      assert n * (i / n + 1) == n * (i / n) + n;
    } else {
      MulMono(k, i / n, n);
    }
  }

  // dir_sdi finds exactly the entries below the size of the table.
  lemma SdiIsBelowSize(g: Geometry, f: seq<nat>, sclust: nat, n: nat, i: nat)
    requires |f| == g.nFatent && HasSize(g, f, sclust, n)
    ensures Sdi(g, f, sclust, i).At? <==> i < n
  {
    hide SoundLayout, ClustToSect, ClusterEntries, ClusterIndex, SectorIndex, IsTable;
    var c := FirstCluster(g, sclust);
    if c != 0 && sclust != 1 && sclust < g.nFatent {
      var k := ClusterIndex(g, i / PER_SECTOR);
      HasSector(g, Nth(f, c, k));
      if IsCluster(f, c) {
        var s :| IsTable(f, s) && s != [] && s[0] == c && n == ClusterEntries(g) * |s|;
        NthOfTable(f, s, k);
        InCluster(g, i);
        BelowProduct(i, ClusterEntries(g), |s|);
      } else {
        NthOfNone(f, c, k);
      }
    }
  }

  lemma NthOfNone(f: seq<nat>, c: nat, k: nat)
    requires !IsCluster(f, c)
    ensures !IsCluster(f, Nth(f, c, k))
  {
  }

  // A table without a size is a chain that runs in a circle, of which dir_sdi finds every entry.
  lemma EndlessTable(g: Geometry, f: seq<nat>, sclust: nat, i: nat)
    requires |f| == g.nFatent && Sdi(g, f, sclust, i).Stop?
    ensures exists n :: HasSize(g, f, sclust, n)
  {
    hide SoundLayout, ClustToSect, ClusterEntries, ClusterIndex, SectorIndex, IsTable;
    var c := FirstCluster(g, sclust);
    if sclust == 1 || sclust >= g.nFatent || (c != 0 && !IsCluster(f, c)) {
      assert HasSize(g, f, sclust, 0);
    } else if c == 0 {
      assert HasSize(g, f, sclust, g.nRootdir);
    } else {
      var k := ClusterIndex(g, i / PER_SECTOR);
      HasSector(g, Nth(f, c, k));
      var s := TableUpTo(f, c, k);
      assert HasSize(g, f, sclust, ClusterEntries(g) * |s|);
    }
  }

  lemma {:induction false} TableUpTo(f: seq<nat>, c: nat, k: nat) returns (s: seq<nat>)
    requires IsCluster(f, c) && !IsCluster(f, Nth(f, c, k))
    ensures IsTable(f, s) && s != [] && s[0] == c
    decreases k
  {
    if IsCluster(f, f[c]) {
      var rest := TableUpTo(f, f[c], k - 1);
      s := [c] + rest;
      forall i | 0 <= i < |s|
        ensures LeadsOn(f, s, i)
      {
        assert i > 0 ==> LeadsOn(f, rest, i - 1);
      }
    } else {
      s := [c];
    }
  }

  // Index i is not below the size of the table.
  ghost predicate IsPastEnd(g: Geometry, f: seq<nat>, sclust: nat, i: nat) {
    exists n :: HasSize(g, f, sclust, n) && i >= n
  }

  // For every index: dir_sdi and the walk agree exactly when the index fits 16 bits or lies past
  // the end of the table.
  lemma SdiAgreesWithWalk(g: Geometry, f: seq<nat>, sclust: nat, i: nat)
    requires |f| == g.nFatent
    ensures (Sdi(g, f, sclust, i).At? <==> Walked(g, f, sclust, i).At?)
      <==> i < 0x1_0000 || IsPastEnd(g, f, sclust, i)
  {
    hide SoundLayout, Sdi, HasSize, Walked;
    if IsPastEnd(g, f, sclust, i) {
      var n :| HasSize(g, f, sclust, n) && i >= n;
      SdiIsBelowSize(g, f, sclust, n, i);
    } else if Sdi(g, f, sclust, i).Stop? {
      EndlessTable(g, f, sclust, i);
      var n :| HasSize(g, f, sclust, n);
      SdiIsBelowSize(g, f, sclust, n, i);
      assert false;
    }
    if i < 0x1_0000 {
      SdiWalks(g, f, sclust, i);
    } else {
      WalkEnds(g, f, sclust, i);
    }
  }

  // A directory of 33 clusters of 128 sectors has an entry 65536, which dir_sdi finds and the walk
  // does not.
  const WIDE: Geometry := Layout(FAT12, 128, 1, 16, 40, 1, 0, 1, 2, 3)

  lemma {:induction false} NthOfRun(f: seq<nat>, c: nat, k: nat)
    requires 2 <= c && c + k < |f|
    requires forall d :: c <= d < c + k ==> f[d] == d + 1
    ensures Nth(f, c, k) == c + k
    decreases k
  {
    if k > 0 {
      NthOfRun(f, c + 1, k - 1);
    }
  }

  lemma LongTableDisagrees()
    ensures var f := seq(WIDE.nFatent, c => c + 1);
      Sdi(WIDE, f, 2, 0x1_0000).At? && Walked(WIDE, f, 2, 0x1_0000).Stop?
  {
    hide Walked;
    var f := seq(WIDE.nFatent, c => c + 1);
    NthOfRun(f, 2, 32);
    WalkEnds(WIDE, f, 2, 0x1_0000);
  }
}
