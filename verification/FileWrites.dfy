// What the steps that write do: storing bytes in the buffer, writing sectors directly, and
// lengthening the chain.
module FileWrites {
  import opened Words
  import opened Volume
  import opened FatTable
  import opened Chains
  import opened DirTable
  import opened FileModel
  import opened FileSteps
  import opened Allocation
  import ChainSafety

  // From image v to image w a file's chain has become longer by clusters that were free, and
  // nothing has changed outside the file: neither a sector nor the FAT entry of a cluster.
  ghost predicate Grown(g: Geometry, v: Image, chain: seq<nat>, w: Image, longer: seq<nat>)
    requires Holds(g, v)
  {
    && |w| == |v| && chain <= longer
    && (forall i :: |chain| <= i < |longer| ==> WasFree(g, v, longer[i]))
    && (forall c :: 0 <= c < g.nFatent && c !in longer ==> Fat(g, w)[c] == Fat(g, v)[c])
    && (forall i :: 0 <= i < |v| && !InFat(g, i) && !IsFileSector(g, longer, i) ==> w[i] == v[i])
  }

  ghost predicate WasFree(g: Geometry, v: Image, c: nat)
    requires Holds(g, v)
  {
    c < g.nFatent && Fat(g, v)[c] == 0
  }

  // In a longer chain the sectors of the shorter one are where they were.
  lemma LongerChain(g: Geometry, chain: seq<nat>, longer: seq<nat>, q: nat)
    requires chain <= longer && InChain(g, chain, q)
    ensures InChain(g, longer, q) && Sect(g, longer, q) == Sect(g, chain, q)
    ensures longer[ClusterIndex(g, q)] == chain[ClusterIndex(g, q)]
  {
    hide SoundLayout, ClustToSect, ClusterIndex, SectorIndex;
  }

  lemma LongerHasSectors(g: Geometry, chain: seq<nat>, longer: seq<nat>, i: int)
    requires chain <= longer && IsFileSector(g, chain, i)
    ensures IsFileSector(g, longer, i)
  {
    hide SoundLayout, InChain, Sect;
    var q :| 0 <= q && InChain(g, chain, q) && i == Sect(g, chain, q);
    LongerChain(g, chain, longer, q);
  }

  lemma GrownRefl(g: Geometry, v: Image, chain: seq<nat>)
    requires Holds(g, v)
    ensures Grown(g, v, chain, v, chain)
  {
  }

  lemma GrownCompose(g: Geometry, v: Image, c: seq<nat>, w: Image, d: seq<nat>, x: Image, e: seq<nat>)
    requires Holds(g, v) && Holds(g, w) && AreDistinct(e)
    requires Grown(g, v, c, w, d) && Grown(g, w, d, x, e)
    ensures Grown(g, v, c, x, e)
  {
    hide SoundLayout, InChain, Sect, Fat, IsFileSector;
    forall i | |c| <= i < |e|
      ensures WasFree(g, v, e[i])
    {
      if i < |d| {
        assert e[i] == d[i];
        assert WasFree(g, v, d[i]);
      } else {
        assert WasFree(g, w, e[i]);
        assert e[i] !in d;
      }
    }
    forall i | 0 <= i < |v| && !InFat(g, i) && !IsFileSector(g, e, i)
      ensures x[i] == v[i]
    {
      if IsFileSector(g, d, i) {
        LongerHasSectors(g, d, e, i);
      }
    }
  }

  // The change of a file from n bytes to m by data written at offset at.
  ghost predicate Change(s: State, f: FileState, n: nat, t: State, e: FileState, m: nat, at: nat, d: seq<byte>) {
    && FileCore(s, f, n) && FileCore(t, e, m) && SameVolume(s, t)
    && at <= n && m == (if at + |d| > n then at + |d| else n)
    && Bytes(t, e, m) == Splice(Bytes(s, f, n), at, d)
    && Grown(s.geo, Meant(s, f), f.chain, Meant(t, e), e.chain)
  }

  lemma ChangeCompose(s: State, f: FileState, n: nat, t: State, e: FileState, m: nat, u: State, h: FileState, k: nat,
                      at: nat, a: seq<byte>, b: seq<byte>)
    requires Change(s, f, n, t, e, m, at, a) && Change(t, e, m, u, h, k, at + |a|, b)
    ensures Change(s, f, n, u, h, k, at, a + b)
  {
    hide Mirrored, Grown, Bytes, Meant, Splice;
    SpliceTwice(Bytes(s, f, n), at, a, b);
    GrownCompose(s.geo, Meant(s, f), f.chain, Meant(t, e), e.chain, Meant(u, h), h.chain);
  }

  lemma SameIsChange(s: State, f: FileState, n: nat, t: State, e: FileState, at: nat)
    requires FileCore(s, f, n) && SameFile(s, f, n, t, e) && at <= n
    ensures Change(s, f, n, t, e, n, at, [])
  {
    hide Mirrored, Grown, Bytes, Fat, IsFileSector, Covers, IsChain, Logical;
    SameBytes(s, f, n, t, e);
    GrownRefl(s.geo, Meant(s, f), f.chain);
  }

  // ----- bytes stored in the buffer

  // b is what the sector at the position must hold once d has been put there: the bytes of d, and
  // around them the bytes that the file of n bytes already has in that sector.
  predicate Merged(a: Sector, b: Sector, at: nat, n: nat, d: seq<byte>) {
    && at % SS + |d| <= SS
    && forall j :: 0 <= j < SS ==>
      if at % SS <= j < at % SS + |d| then b[j] == d[j - at % SS]
      else at / SS * SS + j < n ==> b[j] == a[j]
  }

  ghost function Buffered(g: Geometry, f: FileState, b: Sector): FileState
    requires InChain(g, f.chain, f.fptr / SS)
  {
    f.(dsect := Sect(g, f.chain, f.fptr / SS), buf := b, dirty := true)
  }

  lemma BufferedMeans(s: State, f: FileState, n: nat, b: Sector)
    requires FileCore(s, f, n) && HasCluster(s.geo, f)
    requires f.dirty ==> f.dsect == Sect(s.geo, f.chain, f.fptr / SS)
    ensures var i := Sect(s.geo, f.chain, f.fptr / SS);
      i < |s.data| && Meant(s, Buffered(s.geo, f, b)) == Written(Meant(s, f), i, b, 1)
  {
    hide Fat, InChain, Sect, Logical, SoundLayout, IsFileSector;
    SectorOfFile(s, f, n, f.fptr / SS);
    OneWritten(Meant(s, f), Sect(s.geo, f.chain, f.fptr / SS), b);
  }

  lemma BytesOfMerge(g: Geometry, v: Image, chain: seq<nat>, n: nat, at: nat, b: Sector, d: seq<byte>)
    requires Holds(g, v) && AreClusters(g, chain) && AreDistinct(chain) && Covers(g, chain, n) && at <= n
    requires InChain(g, chain, at / SS) && d != []
    requires Sect(g, chain, at / SS) < |v| && Merged(v[Sect(g, chain, at / SS)], b, at, n, d)
    ensures var m := if at + |d| > n then at + |d| else n;
      Covers(g, chain, m) &&
      Contents(g, Written(v, Sect(g, chain, at / SS), b, 1), chain, m) == Splice(Contents(g, v, chain, n), at, d)
  {
    hide SoundLayout, Sect, Contents, ByteOf, InChain;
    var q, m := at / SS, if at + |d| > n then at + |d| else n;
    var w := Written(v, Sect(g, chain, q), b, 1);
    Advance(at, |d|);
    AreasInOrder(g);
    forall k | 0 <= k < m && InChain(g, chain, k / SS)
      ensures ByteOf(g, w, chain, k) == if at <= k < at + |d| then d[k - at] else ByteOf(g, v, chain, k)
    {
      ByteOfMerge(g, v, chain, n, at, b, d, k);
    }
    SplicedContents(g, v, w, chain, n, at, d);
  }

  lemma ByteOfMerge(g: Geometry, v: Image, chain: seq<nat>, n: nat, at: nat, b: Sector, d: seq<byte>, k: nat)
    requires Holds(g, v) && AreClusters(g, chain) && AreDistinct(chain)
    requires InChain(g, chain, at / SS) && InChain(g, chain, k / SS) && at <= n
    requires Sect(g, chain, at / SS) < |v| && Merged(v[Sect(g, chain, at / SS)], b, at, n, d)
    requires k < if at + |d| > n then at + |d| else n
    ensures ByteOf(g, Written(v, Sect(g, chain, at / SS), b, 1), chain, k) ==
      if at <= k < at + |d| then d[k - at] else ByteOf(g, v, chain, k)
  {
    hide SoundLayout, Sect, InChain;
    AreasInOrder(g);
    ByteOfRun(g, v, chain, at / SS, b, 1, k);
    OffsetInRun(k, at / SS, 1);
    if k / SS == at / SS {
      assert k - at / SS * SS == k % SS;
    }
  }

  // Storing bytes in the buffer splices them into the file.
  lemma BufferSplices(s: State, f: FileState, n: nat, b: Sector, d: seq<byte>)
    requires FileCore(s, f, n) && HasCluster(s.geo, f) && f.fptr <= n && d != [] && f.fptr + |d| < 0x1_0000_0000
    requires f.dirty ==> f.dsect == Sect(s.geo, f.chain, f.fptr / SS)
    requires Sect(s.geo, f.chain, f.fptr / SS) < |s.data|
    requires Merged(Meant(s, f)[Sect(s.geo, f.chain, f.fptr / SS)], b, f.fptr, n, d)
    ensures var m := if f.fptr + |d| > n then f.fptr + |d| else n;
      Change(s, f, n, s, Buffered(s.geo, f, b), m, f.fptr, d)
  {
    hide Fat, Sect, InChain, SoundLayout, Merged, Splice, Contents, Covers, IsChain, Logical, ByteOf;
    var i, e := Sect(s.geo, f.chain, f.fptr / SS), Buffered(s.geo, f, b);
    var m := if f.fptr + |d| > n then f.fptr + |d| else n;
    SectorOfFile(s, f, n, f.fptr / SS);
    BufferedMeans(s, f, n, b);
    BytesOfMerge(s.geo, Meant(s, f), f.chain, n, f.fptr, b, d);
    AreasInOrder(s.geo);
    assert FileCore(s, e, m);
    RunIsGrowth(s.geo, Meant(s, f), f.chain, f.fptr / SS, b, 1);
  }

  lemma RunIsGrowth(g: Geometry, v: Image, chain: seq<nat>, q: nat, x: seq<byte>, n: nat)
    requires Holds(g, v) && AreClusters(g, chain) && InChain(g, chain, q) && SectorIndex(g, q) + n <= g.csize && |x| == n * SS
    ensures Grown(g, v, chain, Written(v, Sect(g, chain, q), x, n), chain)
  {
    hide Fat, Sect, InChain, SoundLayout;
    var w, i := Written(v, Sect(g, chain, q), x, n), Sect(g, chain, q);
    SectInData(g, chain, q);
    WrittenKeepsFat(g, v, i, x, n);
    forall k | i <= k < i + n
      ensures IsFileSector(g, chain, k)
    {
      SectRun(g, chain, q, k - i);
    }
  }

  // ----- sectors written directly

  // The buffer after a run of n sectors has been written from sector i on: when its own sector is
  // among them, it takes over what has been written.
  ghost function Refilled(f: FileState, i: nat, x: seq<byte>, n: nat): FileState
    requires |x| == n * SS
  {
    if i <= f.dsect < i + n then f.(buf := x[(f.dsect - i) * SS..(f.dsect - i) * SS + SS], dirty := false) else f
  }

  lemma RefilledIsCore(s: State, f: FileState, n: nat, t: State, q: nat, x: seq<byte>, c: nat)
    requires FileCore(s, f, n) && !f.dirty && InChain(s.geo, f.chain, q)
    requires c > 0 && SectorIndex(s.geo, q) + c <= s.geo.csize && |x| == c * SS
    requires Wrote(s, t, Sect(s.geo, f.chain, q), x, c)
    ensures var i := Sect(s.geo, f.chain, q);
      var e := Refilled(f, i, x, c);
      && FileCore(t, e, n) && SameVolume(s, t)
      && e.chain == f.chain && Meant(t, e) == Written(Meant(s, f), i, x, c)
  {
    hide Fat, Sect, InChain, SoundLayout, Covers, Logical, Mirrored;
    var i := Sect(s.geo, f.chain, q);
    RunIsFile(s, f, n, q, c);
    WrittenIsLogical(s, t, i, x, c);
    WrittenKeepsFat(s.geo, Logical(s), i, x, c);
  }

  // A run of sectors within a cluster of the file.
  lemma RunIsFile(s: State, f: FileState, n: nat, q: nat, c: nat)
    requires FileCore(s, f, n) && InChain(s.geo, f.chain, q) && c > 0 && SectorIndex(s.geo, q) + c <= s.geo.csize
    ensures var i := Sect(s.geo, f.chain, q);
      && s.geo.database <= i && i + c <= DataEnd(s.geo) <= |s.data|
      && (forall k :: i <= k < i + c ==> !IsHidden(s.geo, k)) && !(i <= s.winsect < i + c)
  {
    hide Fat, Sect, InChain, SoundLayout, Covers, Logical, Mirrored, IsChain;
    var i := Sect(s.geo, f.chain, q);
    SectInData(s.geo, f.chain, q);
    SectRun(s.geo, f.chain, q, c - 1);
    SectInData(s.geo, f.chain, q + (c - 1));
    forall k | i <= k < i + c
      ensures s.geo.database <= k < DataEnd(s.geo) && !IsHidden(s.geo, k) && k != s.winsect
    {
      SectRun(s.geo, f.chain, q, k - i);
      SectorOfFile(s, f, n, q + (k - i));
      SectInData(s.geo, f.chain, q + (k - i));
    }
  }

  lemma RunOffsets(at: nat, c: nat)
    requires at % SS == 0
    ensures at / SS * SS == at && (at / SS + c) * SS == at + c * SS
  {
  }

  lemma BytesOfRun(g: Geometry, v: Image, chain: seq<nat>, n: nat, at: nat, x: seq<byte>, c: nat)
    requires Holds(g, v) && AreClusters(g, chain) && AreDistinct(chain) && Covers(g, chain, n) && at <= n
    requires at % SS == 0 && InChain(g, chain, at / SS) && c > 0 && SectorIndex(g, at / SS) + c <= g.csize && |x| == c * SS
    ensures var m := if at + |x| > n then at + |x| else n;
      Covers(g, chain, m) &&
      Contents(g, Written(v, Sect(g, chain, at / SS), x, c), chain, m) == Splice(Contents(g, v, chain, n), at, x)
  {
    hide SoundLayout, Sect, Contents, ByteOf, InChain;
    var q, m := at / SS, if at + |x| > n then at + |x| else n;
    var w := Written(v, Sect(g, chain, q), x, c);
    RunOffsets(at, c);
    Advance(at, c);
    SectRun(g, chain, q, c - 1);
    forall k | 0 <= k < m && InChain(g, chain, k / SS)
      ensures ByteOf(g, w, chain, k) == if at <= k < at + |x| then x[k - at] else ByteOf(g, v, chain, k)
    {
      ByteOfRun(g, v, chain, q, x, c, k);
    }
    SplicedContents(g, v, w, chain, n, at, x);
  }

  // Writing sectors directly splices their bytes into the file.
  lemma RunSplices(s: State, f: FileState, n: nat, t: State, x: seq<byte>, c: nat)
    requires FileCore(s, f, n) && !f.dirty && HasCluster(s.geo, f) && f.fptr % SS == 0 && f.fptr <= n
    requires c > 0 && SectorIndex(s.geo, f.fptr / SS) + c <= s.geo.csize && |x| == c * SS && f.fptr + |x| < 0x1_0000_0000
    requires Wrote(s, t, Sect(s.geo, f.chain, f.fptr / SS), x, c)
    ensures var m := if f.fptr + |x| > n then f.fptr + |x| else n;
      Change(s, f, n, t, Refilled(f, Sect(s.geo, f.chain, f.fptr / SS), x, c), m, f.fptr, x)
  {
    hide Fat, Sect, InChain, SoundLayout, Splice, Contents, Covers, IsChain, Logical, ByteOf, Mirrored, Refilled, FileCore,
         Grown, Overlay;
    var q := f.fptr / SS;
    var m := if f.fptr + |x| > n then f.fptr + |x| else n;
    var e := Refilled(f, Sect(s.geo, f.chain, q), x, c);
    RefilledIsCore(s, f, n, t, q, x, c);
    CoreFacts(s, f, n);
    BytesOfRun(s.geo, Meant(s, f), f.chain, n, f.fptr, x, c);
    LargerFile(t, e, n, m);
    RunIsGrowth(s.geo, Meant(s, f), f.chain, q, x, c);
  }

  lemma CoreFacts(s: State, f: FileState, n: nat)
    requires FileCore(s, f, n)
    ensures Holds(s.geo, Meant(s, f)) && n < 0x1_0000_0000
    ensures AreClusters(s.geo, f.chain) && AreDistinct(f.chain) && Covers(s.geo, f.chain, n)
  {
  }

  // ----- lengthening the chain

  // The chain with a cluster that has been taken for it.
  function Longer(f: FileState, r: nat): FileState {
    f.(chain := f.chain + [r], sclust := if f.chain == [] then r else f.sclust)
  }

  // The last cluster of the chain, 0 when there is none.
  function LastCluster(f: FileState): nat {
    if f.chain == [] then 0 else f.chain[|f.chain| - 1]
  }

  // Linking a free cluster to the end of a chain lengthens it.
  lemma ChainGrows(f: seq<nat>, s: seq<nat>, r: nat, mark: nat)
    requires IsCluster(f, r) && f[r] == 0 && mark >= |f|
    requires s != [] ==> IsChain(f, s) && s[|s| - 1] < |f|
    ensures r !in s
    ensures IsChain(if s == [] then f[r := mark] else f[r := mark][s[|s| - 1] := r], s + [r])
  {
    var g := f[r := mark];
    if s == [] {
      assert Follows(g, [r], 0);
      assert s + [r] == [r];
    } else {
      forall i | 0 <= i < |s|
        ensures s[i] != r
      {
        ChainIsUsed(f, s, i);
      }
      ChainKept(f, g, s);
      assert Follows(g, s, |s| - 1);
      LinkExtends(g, s[|s| - 1], r, s);
    }
  }

  lemma TakenStaysInFat(g: Geometry, v: Image, r: nat, clst: nat, i: nat)
    requires Holds(g, v) && r < g.nFatent && clst < g.nFatent && i < |v| && !InFat(g, i)
    ensures |Taken(g, v, r, clst)| == |v| && Taken(g, v, r, clst)[i] == v[i]
  {
    hide PutBytes;
    PutStaysInFat(g, v, r, LAST_LINK, EntrySize(g.fsType), i);
    if clst != 0 {
      PutStaysInFat(g, Marked(g, v, r), clst, r, EntrySize(g.fsType), i);
    }
  }

  // Contents depend on the sectors of the chain alone.
  lemma ContentsElsewhere(g: Geometry, v: Image, chain: seq<nat>, w: Image, longer: seq<nat>, n: nat)
    requires Holds(g, v) && Holds(g, w) && chain <= longer && AreClusters(g, longer) && Covers(g, chain, n)
    requires forall i :: IsFileSector(g, chain, i) ==> AgreeAt(v, w, i)
    ensures Covers(g, longer, n) && Contents(g, w, longer, n) == Contents(g, v, chain, n)
  {
    hide SoundLayout, Sect, InChain;
    if n > 0 {
      LongerChain(g, chain, longer, (n - 1) / SS);
    }
    var a, b := Contents(g, w, longer, n), Contents(g, v, chain, n);
    forall k | 0 <= k < n
      ensures a[k] == b[k]
    {
      CoversBefore(g, chain, n, k);
      LongerChain(g, chain, longer, k / SS);
      SectInData(g, chain, k / SS);
      assert IsFileSector(g, chain, Sect(g, chain, k / SS));
    }
  }

  // create_chain has taken cluster r for the end of the file.
  ghost predicate Took(s: State, f: FileState, t: State, r: nat)
    requires Sound(s)
  {
    && Sound(t) && SameVolume(s, t)
    && 2 <= r < s.geo.nFatent && Fat(s.geo, Logical(s))[r] == 0 && LastCluster(f) < s.geo.nFatent
    && Logical(t) == Taken(s.geo, Logical(s), r, LastCluster(f))
    && InFat(s.geo, t.winsect)
  }

  lemma TakingIsTook(s: State, f: FileState, n: nat, t: State, scl: nat, r: nat)
    requires FileCore(s, f, n) && Created(s, t, LastCluster(f), scl, r) && Counts(s, LastCluster(f), r)
    ensures Took(s, f, t, r)
  {
    hide Fat, Logical, Taken, TakingViews, Sect, InChain, IsChain, Visible, Covers, Mirrored;
    EntriesAreSmall(s.geo, Logical(s));
  }

  // The chain after that.
  lemma TookChain(s: State, f: FileState, n: nat, t: State, r: nat)
    requires FileCore(s, f, n) && Took(s, f, t, r)
    ensures IsChain(Fat(s.geo, Logical(t)), f.chain + [r]) && r !in f.chain
    ensures forall c :: 0 <= c < s.geo.nFatent && c !in f.chain + [r] ==>
      Fat(s.geo, Logical(t))[c] == Fat(s.geo, Logical(s))[c]
  {
    hide Fat, Logical, Taken, Sect, InChain, Covers, Mirrored, IsFileSector;
    ChainSafety.TakenFat(s.geo, Logical(s), r, LastCluster(f));
    ChainSafety.MarksEnd(s.geo);
    ChainGrows(Fat(s.geo, Logical(s)), f.chain, r, EndMark(s.geo.fsType));
    if f.chain != [] {
      assert f.chain[|f.chain| - 1] in f.chain + [r];
    }
  }

  lemma TookKeepsSectors(s: State, f: FileState, n: nat, t: State, r: nat)
    requires FileCore(s, f, n) && Took(s, f, t, r)
    ensures forall i :: 0 <= i < |s.data| && !InFat(s.geo, i) ==> Meant(t, Longer(f, r))[i] == Meant(s, f)[i]
    ensures forall i :: 0 <= i < |s.data| && !InFat(s.geo, i) ==> Logical(t)[i] == Logical(s)[i]
  {
    hide Fat, Logical, Taken, Sect, InChain, Covers, Mirrored, IsFileSector, IsChain;
    forall i | 0 <= i < |s.data| && !InFat(s.geo, i)
      ensures Logical(t)[i] == Logical(s)[i]
    {
      TakenStaysInFat(s.geo, Logical(s), r, LastCluster(f), i);
    }
  }

  lemma TookIsCore(s: State, f: FileState, n: nat, t: State, r: nat)
    requires FileCore(s, f, n) && Took(s, f, t, r)
    ensures FileCore(t, Longer(f, r), n)
  {
    hide Fat, Logical, Taken, Sect, InChain, Mirrored, IsFileSector, IsChain, SoundLayout;
    var e := Longer(f, r);
    TookChain(s, f, n, t, r);
    TookKeepsSectors(s, f, n, t, r);
    FilesAreElsewhere(s.geo, e.chain, t.winsect, |s.data|);
    if n > 0 {
      LongerChain(s.geo, f.chain, e.chain, (n - 1) / SS);
    }
    if f.dsect != 0 {
      FileSectorFacts(s, f, n, f.dsect);
      AreasInOrder(s.geo);
      LongerHasSectors(s.geo, f.chain, e.chain, f.dsect);
    }
  }

  // Lengthening the chain changes no byte of the file, and outside the file nothing but that a free
  // cluster is used.
  lemma TookIsChange(s: State, f: FileState, n: nat, t: State, r: nat, at: nat)
    requires FileCore(s, f, n) && Took(s, f, t, r) && at <= n
    ensures Change(s, f, n, t, Longer(f, r), n, at, [])
  {
    hide Fat, Logical, Taken, Sect, InChain, Mirrored, IsChain, SoundLayout, Contents, Covers;
    var e := Longer(f, r);
    TookIsCore(s, f, n, t, r);
    TookChain(s, f, n, t, r);
    TookKeepsSectors(s, f, n, t, r);
    MeantFat(s, f, n);
    MeantFat(t, e, n);
    forall i | IsFileSector(s.geo, f.chain, i)
      ensures AgreeAt(Meant(s, f), Meant(t, e), i)
    {
      FileSectorFacts(s, f, n, i);
      AreasInOrder(s.geo);
    }
    ContentsElsewhere(s.geo, Meant(s, f), f.chain, Meant(t, e), e.chain, n);
  }

  // The buffer hides no part of the FAT.
  lemma MeantFat(s: State, f: FileState, n: nat)
    requires FileCore(s, f, n)
    ensures Fat(s.geo, Meant(s, f)) == Fat(s.geo, Logical(s))
  {
    hide Fat, Logical, Sect, InChain, Covers, IsFileSector, IsChain, SoundLayout;
    if f.dirty {
      FileSectorFacts(s, f, n, f.dsect);
      AreasInOrder(s.geo);
    }
    forall j | InFat(s.geo, j)
      ensures AgreeAt(Logical(s), Meant(s, f), j)
    {
      AreasInOrder(s.geo);
    }
    FatElsewhere(s.geo, Logical(s), Meant(s, f));
  }

  // A file of more bytes on the same chain, as when seeking past the end.
  lemma LargerFile(s: State, f: FileState, n: nat, m: nat)
    requires FileCore(s, f, n) && n <= m < 0x1_0000_0000 && Covers(s.geo, f.chain, m)
    ensures FileCore(s, f, m) && Bytes(s, f, m)[..n] == Bytes(s, f, n)
  {
    hide Fat, Logical, Sect, InChain, IsFileSector, IsChain, SoundLayout;
  }

  lemma ChangeElsewhere(s: State, f: FileState, n: nat, t: State, e: FileState, m: nat, at: nat, d: seq<byte>, h: FileState)
    requires Change(s, f, n, t, e, m, at, d) && Alike(e, h)
    ensures Change(s, f, n, t, h, m, at, d)
  {
    hide Logical, Fat, IsFileSector, Covers, IsChain, Mirrored, Grown, Contents;
  }
}
