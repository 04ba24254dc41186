// How far a file can grow: the clusters that its bytes need, the room on the volume, and the counters
// that are kept of the clusters it takes.
module FileRoom {
  import opened Words
  import opened Volume
  import opened FatTable
  import opened Chains
  import opened Arith
  import opened DirTable
  import opened FileModel
  import opened FileSteps
  import opened FileWrites
  import opened Allocation

  // Bytes of a cluster.
  function ClusterBytes(g: Geometry): (b: nat)
    ensures SS <= b <= 128 * SS
  {
    AreasInOrder(g);
    g.csize * SS
  }

  lemma ByteInCluster(g: Geometry, p: nat)
    ensures ClusterIndex(g, p / SS) == p / ClusterBytes(g)
    ensures p % ClusterBytes(g) == SS * (SectorIndex(g, p / SS)) + p % SS
  {
    AreasInOrder(g);
    Split(p, SS, g.csize);
    assert SS * g.csize == ClusterBytes(g);
  }

  // The position where cluster k starts.
  function ClusterStart(g: Geometry, k: nat): nat {
    k * ClusterBytes(g)
  }

  // The number of clusters that p bytes need.
  function ClustersFor(g: Geometry, p: nat): nat {
    if p == 0 then 0 else (p - 1) / ClusterBytes(g) + 1
  }

  lemma ClustersForIsLeast(g: Geometry, p: nat, k: nat)
    ensures ClustersFor(g, p) <= k <==> p <= ClusterStart(g, k)
  {
    hide ClusterBytes;
    var b := ClusterBytes(g);
    if p > 0 {
      var q := (p - 1) / b;
      assert p - 1 == b * q + (p - 1) % b;
      assert b * (q + 1) == b * q + b;
      if q + 1 <= k {
        MulMono(q + 1, k, b);
      } else {
        MulMono(k, q, b);
      }
    } else {
      MulMono(0, k, b);
    }
  }

  lemma ClustersForMono(g: Geometry, p: nat, q: nat)
    requires p <= q
    ensures ClustersFor(g, p) <= ClustersFor(g, q)
  {
    hide ClusterBytes, ClustersFor, ClusterStart;
    ClustersForIsLeast(g, q, ClustersFor(g, q));
    ClustersForIsLeast(g, p, ClustersFor(g, q));
  }

  // The position is at the end of the last cluster.
  predicate AtEnd(g: Geometry, f: FileState) {
    f.fptr == ClusterStart(g, |f.chain|)
  }

  // From f to e no cluster has been taken but those that the new position needs.
  predicate GrewTo(g: Geometry, f: FileState, e: FileState, p: nat) {
    |e.chain| == Max(|f.chain|, ClustersFor(g, p))
  }

  lemma OnClusterIsCovered(g: Geometry, f: FileState)
    requires OnCluster(g, f)
    ensures ClustersFor(g, f.fptr) <= |f.chain| && GrewTo(g, f, f, f.fptr)
  {
    if f.fptr > 0 {
      ByteInCluster(g, f.fptr - 1);
    }
  }

  // The clusters needed once some bytes of the current cluster have been written.
  lemma StaysInCluster(g: Geometry, f: FileState, e: FileState, w: nat)
    requires HasCluster(g, f) && AreDistinct(f.chain) && w > 0
    requires e.chain == f.chain && e.clust == f.clust && e.fptr == f.fptr + w && OnCluster(g, e)
    ensures ClustersFor(g, e.fptr) == ClusterIndex(g, f.fptr / SS) + 1
  {
    ByteInCluster(g, e.fptr - 1);
  }

  // A position where a cluster begins.
  lemma BoundaryStart(g: Geometry, p: nat)
    requires p % SS == 0 && SectorIndex(g, p / SS) == 0
    ensures p == ClusterStart(g, ClusterIndex(g, p / SS))
    ensures ClusterIndex(g, p / SS) == ClustersFor(g, p)
  {
    hide ClusterBytes;
    ByteInCluster(g, p);
    Multiple(p, ClusterBytes(g));
  }

  lemma Multiple(p: nat, b: nat)
    requires b > 0 && p % b == 0
    ensures p == p / b * b && (p > 0 ==> (p - 1) / b + 1 == p / b)
  {
    var q := p / b;
    assert p == b * q;
    if p > 0 {
      assert b * (q - 1) == b * q - b;
      Quotient(p - 1, b, q - 1, b - 1);
    }
  }

  lemma GrewTwice(g: Geometry, f: FileState, e: FileState, p: nat, h: FileState, q: nat)
    requires GrewTo(g, f, e, p) && GrewTo(g, e, h, q) && p <= q
    ensures GrewTo(g, f, h, q)
  {
    hide ClustersFor;
    ClustersForMono(g, p, q);
  }

  // ----- counters

  // The counters once these clusters have been taken, in this order.
  function Charged(c: Counters, taken: seq<nat>): Counters {
    if taken == [] then c
    else Noted(Charged(c, taken[..|taken| - 1]), Wrap32(taken[|taken| - 1]))
  }

  // From c to d the counters have kept track of a chain becoming longer.
  ghost predicate Tracked(chain: seq<nat>, c: Counters, longer: seq<nat>, d: Counters) {
    chain <= longer && d == Charged(c, longer[|chain|..])
  }

  lemma TrackedRefl(chain: seq<nat>, c: Counters)
    ensures Tracked(chain, c, chain, c)
  {
  }

  lemma TrackedOne(chain: seq<nat>, c: Counters, r: u32)
    ensures Tracked(chain, c, chain + [r], Noted(c, r))
  {
    assert (chain + [r])[|chain|..] == [r];
    assert [r][..0] == [];
    assert Charged(c, [r]) == Noted(Charged(c, []), r);
  }

  lemma {:induction false} ChargedTwice(c: Counters, a: seq<nat>, b: seq<nat>)
    ensures Charged(Charged(c, a), b) == Charged(c, a + b)
    decreases |b|
  {
    if b == [] {
      assert a + b == a;
    } else {
      ChargedTwice(c, a, b[..|b| - 1]);
      assert (a + b)[..|a + b| - 1] == a + b[..|b| - 1];
    }
  }

  lemma TrackedTwice(chain: seq<nat>, c: Counters, longer: seq<nat>, d: Counters, longest: seq<nat>, e: Counters)
    requires Tracked(chain, c, longer, d) && Tracked(longer, d, longest, e)
    ensures Tracked(chain, c, longest, e)
  {
    hide Charged;
    ChargedTwice(c, longer[|chain|..], longest[|longer|..]);
    assert longer[|chain|..] + longest[|longer|..] == longest[|chain|..];
  }

  // What the counters say: the cluster taken last, and how many are left when that was known.
  lemma {:induction false} ChargedMeans(c: Counters, taken: seq<nat>)
    requires forall i :: 0 <= i < |taken| ==> taken[i] < ALL_ONES
    ensures var d := Charged(c, taken);
      && d.last == (if taken == [] then c.last else taken[|taken| - 1])
      && (c.free == ALL_ONES ==> d.free == ALL_ONES && d.flag == c.flag)
      && (|taken| <= c.free < ALL_ONES ==> d.free == c.free - |taken| && d.flag == if taken == [] then c.flag else Flagged(c.flag))
    decreases |taken|
  {
    if taken != [] {
      ChargedMeans(c, taken[..|taken| - 1]);
    }
  }

  // The search for a cluster to lengthen the chain with gets to an entry that is 1 first.
  ghost predicate IsStuck(s: State, chain: seq<nat>, lastClust: nat)
    requires Sound(s)
  {
    IsBlocked(Fat(s.geo, Logical(s)), ScanStart(if chain == [] then 0 else chain[|chain| - 1], lastClust, s.geo.nFatent))
  }

  // ----- the room on the volume

  ghost function FreeSet(f: seq<nat>, lo: nat): set<int> {
    set c | lo <= c < |f| && f[c] == 0
  }

  lemma {:induction false} FreeSetSize(f: seq<nat>, lo: nat)
    requires lo <= |f|
    ensures |FreeSet(f, lo)| == FreeFrom(f, lo)
    decreases |f| - lo
  {
    if lo < |f| {
      FreeSetSize(f, lo + 1);
      if f[lo] == 0 {
        assert FreeSet(f, lo) == FreeSet(f, lo + 1) + {lo};
      } else {
        assert FreeSet(f, lo) == FreeSet(f, lo + 1);
      }
    } else {
      assert FreeSet(f, lo) == {};
    }
  }

  // The elements of a sequence from index k on.
  ghost function From(s: seq<nat>, k: nat): set<int> {
    set i | k <= i < |s| :: s[i]
  }

  lemma {:induction false} FromSize(s: seq<nat>, k: nat)
    requires AreDistinct(s) && k <= |s|
    ensures |From(s, k)| == |s| - k
    decreases |s| - k
  {
    if k < |s| {
      FromSize(s, k + 1);
      assert From(s, k) == From(s, k + 1) + {s[k]};
    } else {
      assert From(s, k) == {};
    }
  }

  // No cluster is free.
  ghost predicate IsFull(g: Geometry, v: Image)
    requires Holds(g, v)
  {
    forall c :: IsCluster(Fat(g, v), c) ==> Fat(g, v)[c] != 0
  }

  // The bytes that the file can have: its clusters and all free ones.
  ghost function Room(s: State, chain: seq<nat>): nat
    requires Sound(s)
  {
    ClusterStart(s.geo, |chain| + FreeCount(Fat(s.geo, Logical(s))))
  }

  lemma FreeBecomesUsed(f: seq<nat>, s: seq<nat>, g: seq<nat>, t: seq<nat>)
    requires |g| == |f| >= 2 && s <= t && AreDistinct(t)
    requires s == [] || IsChain(f, s)
    requires t == [] || IsChain(g, t)
    requires forall i :: |s| <= i < |t| ==> IsCluster(f, t[i]) && f[t[i]] == 0
    requires forall c :: IsCluster(f, c) && c !in t ==> g[c] == f[c]
    ensures FreeCount(g) + |t| == FreeCount(f) + |s|
  {
    hide IsChain, FreeFrom;
    forall c | c in t
      ensures c in From(t, |s|) <==> c in FreeSet(f, 2)
      ensures c !in FreeSet(g, 2)
    {
      var i :| 0 <= i < |t| && t[i] == c;
      ChainIsUsed(g, t, i);
      if i < |s| {
        ChainIsUsed(f, s, i);
      }
    }
    assert FreeSet(f, 2) == FreeSet(g, 2) + From(t, |s|);
    FreeSetSize(f, 2);
    FreeSetSize(g, 2);
    FromSize(t, |s|);
  }

  // A file that grows takes its clusters from the free ones, one for one.
  lemma ClustersAreConserved(s: State, f: FileState, n: nat, t: State, e: FileState, m: nat, at: nat, d: seq<byte>)
    requires Change(s, f, n, t, e, m, at, d)
    ensures |e.chain| + FreeCount(Fat(t.geo, Logical(t))) == |f.chain| + FreeCount(Fat(s.geo, Logical(s)))
    ensures Room(t, e.chain) == Room(s, f.chain)
  {
    hide Logical, Meant, IsFileSector, Fat, Mirrored, Bytes, Covers, IsChain, FreeCount, ClusterStart, Splice;
    MeantFat(s, f, n);
    MeantFat(t, e, m);
    forall i | |f.chain| <= i < |e.chain|
      ensures IsCluster(Fat(s.geo, Logical(s)), e.chain[i]) && Fat(s.geo, Logical(s))[e.chain[i]] == 0
    {
      assert WasFree(s.geo, Meant(s, f), e.chain[i]);
    }
    FreeBecomesUsed(Fat(s.geo, Logical(s)), f.chain, Fat(t.geo, Logical(t)), e.chain);
  }

  // A file at the end of its chain on a full volume is as long as it can be.
  lemma FullAtEnd(s: State, f: FileState)
    requires Sound(s) && IsFull(s.geo, Logical(s)) && AtEnd(s.geo, f)
    ensures f.fptr == Room(s, f.chain)
  {
    hide Fat, Logical, FreeFrom, ClusterStart;
    var t := Fat(s.geo, Logical(s));
    assert FreeSet(t, 2) == {};
    FreeSetSize(t, 2);
  }

  lemma ChainInRoom(s: State, f: FileState, p: nat)
    requires Sound(s) && ClustersFor(s.geo, p) <= |f.chain|
    ensures p <= Room(s, f.chain)
  {
    hide Fat, Logical, FreeCount, ClustersFor;
    var k := |f.chain| + FreeCount(Fat(s.geo, Logical(s)));
    ClustersForIsLeast(s.geo, p, k);
  }

  // A free count that is known stays the number of free clusters.
  lemma CountStays(s: State, f: FileState, n: nat, c: Counters, t: State, e: FileState, m: nat, at: nat, d: seq<byte>, k: Counters)
    requires Change(s, f, n, t, e, m, at, d) && Tracked(f.chain, c, e.chain, k)
    requires c.free == FreeCount(Fat(s.geo, Logical(s)))
    ensures k.free == FreeCount(Fat(t.geo, Logical(t)))
    ensures e.chain != f.chain ==> k.last == e.chain[|e.chain| - 1] && k.flag == Flagged(c.flag)
    ensures e.chain == f.chain ==> k == c
  {
    hide Logical, Meant, IsFileSector, Fat, Mirrored, Bytes, Covers, IsChain, FreeFrom, ClusterStart, Splice, Grown, Charged;
    ClustersAreConserved(s, f, n, t, e, m, at, d);
    SmallTable(s.geo);
    ChargedMeans(c, e.chain[|f.chain|..]);
  }
}
