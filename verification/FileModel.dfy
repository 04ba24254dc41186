// An open file as FatFs keeps it - a chain of clusters, a private sector buffer and a position -
// and the byte array it stands for.
module FileModel {
  import opened Words
  import opened Volume
  import opened FatTable
  import opened Chains
  import opened DirTable
  import opened Directory
  import opened Arith

  // The members of a file object, with the chain of its clusters.
  datatype FileState = FileState(
    fptr: nat,       // position
    fsize: nat,      // size
    sclust: nat,     // first cluster, 0 when there is none
    clust: nat,      // current cluster, when fptr > 0
    dsect: nat,      // sector in buf, 0 when none
    dirty: bool,     // buf is newer than the disk
    buf: Sector,
    chain: seq<nat>)

  predicate AreClusters(g: Geometry, chain: seq<nat>) {
    forall i :: 0 <= i < |chain| ==> 2 <= chain[i] < g.nFatent
  }

  // Sector q of the file lies in its chain.
  predicate InChain(g: Geometry, chain: seq<nat>, q: nat) {
    ClusterIndex(g, q) < |chain|
  }

  // The sector of the volume that holds sector q of the file.
  function Sect(g: Geometry, chain: seq<nat>, q: nat): (s: nat)
    requires InChain(g, chain, q)
  {
    ClustToSect(g, chain[ClusterIndex(g, q)]) + SectorIndex(g, q)
  }

  predicate AreDistinct(chain: seq<nat>) {
    forall i, j :: 0 <= i < j < |chain| ==> chain[i] != chain[j]
  }

  lemma SectInData(g: Geometry, chain: seq<nat>, q: nat)
    requires AreClusters(g, chain) && InChain(g, chain, q)
    ensures g.database <= Sect(g, chain, q) < DataEnd(g)
    ensures !InFat(g, Sect(g, chain, q)) && !IsHidden(g, Sect(g, chain, q)) && Sect(g, chain, q) != 0
  {
    hide ClusterIndex, SectorIndex;
    AreasInOrder(g);
    SectorFits(g, chain[ClusterIndex(g, q)], SectorIndex(g, q));
  }

  lemma PlaceInBlocks(g: Geometry, c: nat, d: nat, a: nat, b: nat)
    requires 2 <= c < g.nFatent && 2 <= d < g.nFatent && a < g.csize && b < g.csize
    requires ClustToSect(g, c) + a == ClustToSect(g, d) + b
    ensures c == d && a == b
  {
    hide SoundLayout;
    var n := g.csize;
    assert n * (c - 2) + a == n * (d - 2) + b;
    Quotient(n * (c - 2) + a, n, c - 2, a);
    Quotient(n * (d - 2) + b, n, d - 2, b);
  }

  // Distinct sectors of a file lie in distinct sectors of the volume.
  lemma SectIsInjective(g: Geometry, chain: seq<nat>, p: nat, q: nat)
    requires AreClusters(g, chain) && AreDistinct(chain) && InChain(g, chain, p) && InChain(g, chain, q)
    requires Sect(g, chain, p) == Sect(g, chain, q)
    ensures p == q
  {
    hide SoundLayout, ClustToSect, ClusterIndex, SectorIndex;
    PlaceInBlocks(g, chain[ClusterIndex(g, p)], chain[ClusterIndex(g, q)], SectorIndex(g, p), SectorIndex(g, q));
    IndicesOf(g, p);
    IndicesOf(g, q);
  }

  // Byte k of the file, as image v has it.
  function ByteOf(g: Geometry, v: Image, chain: seq<nat>, k: nat): byte
    requires Holds(g, v) && AreClusters(g, chain) && InChain(g, chain, k / SS)
  {
    SectInData(g, chain, k / SS);
    v[Sect(g, chain, k / SS)][k % SS]
  }

  // The chain has room for n bytes.
  predicate Covers(g: Geometry, chain: seq<nat>, n: nat) {
    n > 0 ==> InChain(g, chain, (n - 1) / SS)
  }

  lemma CoversBefore(g: Geometry, chain: seq<nat>, n: nat, k: nat)
    requires Covers(g, chain, n) && k < n
    ensures InChain(g, chain, k / SS)
  {
    AreasInOrder(g);
    QuotientMono(k / SS, (n - 1) / SS, g.csize);
  }

  lemma QuotientMono(a: nat, b: nat, d: nat)
    requires a <= b && d > 0
    ensures a / d <= b / d
  {
    assert d * (b / d + 1) == d * (b / d) + d;
    if a / d > b / d {
      MulMono(b / d + 1, a / d, d);
    }
  }

  // The first n bytes of the file.
  function Contents(g: Geometry, v: Image, chain: seq<nat>, n: nat): (c: seq<byte>)
    requires Holds(g, v) && AreClusters(g, chain) && Covers(g, chain, n)
    ensures |c| == n
  {
    seq<byte>(n, k requires 0 <= k < n => CoversBefore(g, chain, n, k); ByteOf(g, v, chain, k))
  }

  // The volume with the file's buffer laid over it.
  function Overlay(v: Image, f: FileState): (w: Image)
    ensures |w| == |v|
  {
    if f.dirty && f.dsect < |v| then v[f.dsect := f.buf] else v
  }

  ghost predicate IsFileSector(g: Geometry, chain: seq<nat>, s: int) {
    exists q :: 0 <= q && InChain(g, chain, q) && s == Sect(g, chain, q)
  }

  // The chain and the buffer of a file object are in order, and the chain has room for n bytes.
  ghost predicate FileCore(s: State, f: FileState, n: nat) {
    && Sound(s) && n < 0x1_0000_0000
    && (if f.chain == [] then f.sclust == 0
        else IsChain(Fat(s.geo, Logical(s)), f.chain) && f.sclust == f.chain[0])
    && AreClusters(s.geo, f.chain) && AreDistinct(f.chain) && Covers(s.geo, f.chain, n)
    && (f.dsect == 0 || IsFileSector(s.geo, f.chain, f.dsect))
    && (f.dirty ==> f.dsect != 0)
    && (!f.dirty && f.dsect != 0 ==> f.dsect < |s.data| && f.buf == Logical(s)[f.dsect])
    && !IsFileSector(s.geo, f.chain, s.winsect)
  }

  // The current cluster is the one that holds the byte before the position.
  predicate OnCluster(g: Geometry, f: FileState) {
    f.fptr > 0 ==> InChain(g, f.chain, (f.fptr - 1) / SS) && f.clust == f.chain[ClusterIndex(g, (f.fptr - 1) / SS)]
  }

  // Between sector boundaries the buffer holds the sector of the position.
  predicate InPosition(g: Geometry, f: FileState) {
    OnCluster(g, f) && (f.fptr % SS != 0 ==> InChain(g, f.chain, f.fptr / SS) && f.dsect == Sect(g, f.chain, f.fptr / SS))
  }

  // A file object of n bytes.
  ghost predicate FileOk(s: State, f: FileState, n: nat) {
    FileCore(s, f, n) && f.fptr <= n && InPosition(s.geo, f)
  }

  // The byte array that a file object stands for.
  ghost function Bytes(s: State, f: FileState, n: nat): (c: seq<byte>)
    requires FileCore(s, f, n)
    ensures |c| == n
  {
    Contents(s.geo, Overlay(Logical(s), f), f.chain, n)
  }

  // Array c with d written at offset at, which may lie at its end.
  function Splice(c: seq<byte>, at: nat, d: seq<byte>): (r: seq<byte>)
    requires at <= |c|
    ensures |r| == if at + |d| > |c| then at + |d| else |c|
    ensures forall k :: 0 <= k < |r| ==> r[k] == if at <= k < at + |d| then d[k - at] else c[k]
  {
    c[..at] + d + if at + |d| <= |c| then c[at + |d|..] else []
  }

  lemma SpliceTwice(c: seq<byte>, at: nat, d: seq<byte>, e: seq<byte>)
    requires at <= |c|
    ensures Splice(Splice(c, at, d), at + |d|, e) == Splice(c, at, d + e)
  {
  }

  // ----- writing sectors of the file

  // Sectors that follow each other in a cluster of the file follow each other on the volume.
  lemma SectRun(g: Geometry, chain: seq<nat>, q: nat, j: nat)
    requires AreClusters(g, chain) && InChain(g, chain, q) && SectorIndex(g, q) + j < g.csize
    ensures InChain(g, chain, q + j) && Sect(g, chain, q + j) == Sect(g, chain, q) + j
    ensures ClusterIndex(g, q + j) == ClusterIndex(g, q)
  {
    hide SoundLayout, ClustToSect, ClusterIndex, SectorIndex;
    IndicesOf(g, q);
    IndicesAre(g, q + j, ClusterIndex(g, q), SectorIndex(g, q) + j);
  }

  // Which sectors of the file a run of n sectors of the volume covers.
  lemma RunCovers(g: Geometry, chain: seq<nat>, q: nat, n: nat, p: nat)
    requires AreClusters(g, chain) && AreDistinct(chain) && InChain(g, chain, q) && InChain(g, chain, p)
    requires SectorIndex(g, q) + n <= g.csize
    ensures q <= p < q + n <==> Sect(g, chain, q) <= Sect(g, chain, p) < Sect(g, chain, q) + n
    ensures q <= p < q + n ==> Sect(g, chain, p) - Sect(g, chain, q) == p - q
  {
    hide SoundLayout, ClustToSect, Sect, ClusterIndex, SectorIndex;
    if q <= p < q + n {
      SectRun(g, chain, q, p - q);
    } else if Sect(g, chain, q) <= Sect(g, chain, p) < Sect(g, chain, q) + n {
      var j := Sect(g, chain, p) - Sect(g, chain, q);
      SectRun(g, chain, q, j);
      SectIsInjective(g, chain, p, q + j);
    }
  }

  lemma SliceAt(x: seq<byte>, i: nat, j: nat)
    requires i * SS + SS <= |x| && j < SS
    ensures x[i * SS..i * SS + SS][j] == x[i * SS + j]
  {
  }

  lemma OffsetInRun(k: nat, q: nat, n: nat)
    ensures q <= k / SS < q + n <==> q * SS <= k < (q + n) * SS
    ensures k - q * SS == (k / SS - q) * SS + k % SS
  {
  }

  // The bytes of the file once n sectors have been written from its sector q on.
  lemma ByteOfRun(g: Geometry, v: Image, chain: seq<nat>, q: nat, x: seq<byte>, n: nat, k: nat)
    requires Holds(g, v) && AreClusters(g, chain) && AreDistinct(chain)
    requires InChain(g, chain, q) && InChain(g, chain, k / SS)
    requires SectorIndex(g, q) + n <= g.csize && |x| == n * SS
    ensures ByteOf(g, Written(v, Sect(g, chain, q), x, n), chain, k) ==
      if q * SS <= k < (q + n) * SS then x[k - q * SS] else ByteOf(g, v, chain, k)
  {
    hide SoundLayout, ClustToSect, Sect, InChain, SectorIndex;
    var p := k / SS;
    SectInData(g, chain, p);
    RunCovers(g, chain, q, n, p);
    OffsetInRun(k, q, n);
    if q <= p < q + n {
      SliceAt(x, p - q, k % SS);
    }
  }

  // Contents with d spliced in, when every byte is as it should be.
  lemma SplicedContents(g: Geometry, v: Image, w: Image, chain: seq<nat>, n: nat, at: nat, d: seq<byte>)
    requires Holds(g, v) && Holds(g, w) && AreClusters(g, chain) && Covers(g, chain, n) && at <= n
    requires var m := if at + |d| > n then at + |d| else n;
      Covers(g, chain, m) &&
      forall k | 0 <= k < m && InChain(g, chain, k / SS) ::
        ByteOf(g, w, chain, k) == if at <= k < at + |d| then d[k - at] else ByteOf(g, v, chain, k)
    ensures var m := if at + |d| > n then at + |d| else n;
      Contents(g, w, chain, m) == Splice(Contents(g, v, chain, n), at, d)
  {
    hide Covers, ByteOf, SoundLayout;
    var m := if at + |d| > n then at + |d| else n;
    var a, b := Contents(g, w, chain, m), Splice(Contents(g, v, chain, n), at, d);
    forall k | 0 <= k < m
      ensures a[k] == b[k]
    {
      CoversBefore(g, chain, m, k);
      if k < n {
        CoversBefore(g, chain, n, k);
      }
    }
  }

  // ----- writing sectors to the disk behind the window's back

  // t is s after n sectors have been written to the disk from sector i on.
  ghost predicate Wrote(s: State, t: State, i: nat, x: seq<byte>, n: nat)
    requires n * SS <= |x|
  {
    t == s.(data := Written(s.data, i, x, n), history := t.history)
  }

  lemma WrittenIsLogical(s: State, t: State, i: nat, x: seq<byte>, n: nat)
    requires Sound(s) && n * SS <= |x| && Wrote(s, t, i, x, n)
    requires s.geo.database <= i && i + n <= |s.data| && !(i <= s.winsect < i + n)
    requires forall k :: i <= k < i + n ==> !IsHidden(s.geo, k)
    ensures Sound(t) && Logical(t) == Written(Logical(s), i, x, n)
    ensures Mirrored(s) ==> Mirrored(t)
  {
    AreasInOrder(s.geo);
    var a, b := Logical(t), Written(Logical(s), i, x, n);
    forall k | 0 <= k < |a|
      ensures a[k] == b[k]
    {
    }
    if Mirrored(s) {
      forall j | InFat(s.geo, j) && s.geo.nFats == 2 && !(s.wflag && s.winsect == j)
        ensures IsCopied(t, j)
      {
        assert IsCopied(s, j);
      }
    }
  }

  lemma WrittenKeepsFat(g: Geometry, v: Image, i: nat, x: seq<byte>, n: nat)
    requires Holds(g, v) && g.database <= i && n * SS <= |x|
    ensures Fat(g, Written(v, i, x, n)) == Fat(g, v)
  {
    hide Fat;
    AreasInOrder(g);
    forall j | InFat(g, j)
      ensures AgreeAt(v, Written(v, i, x, n), j)
    {
    }
    FatElsewhere(g, v, Written(v, i, x, n));
  }
}
