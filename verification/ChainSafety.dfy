// What create_chain and remove_chain mean for the cluster chains of a volume, and for the volume a
// power failure leaves behind.
module ChainSafety {
  import opened Words
  import opened Volume
  import opened FatTable
  import opened Chains
  import opened Allocation
  import Freeing

  ghost function FatOf(s: State): (f: seq<nat>)
    requires Sound(s)
    ensures |f| == s.geo.nFatent
  {
    Fat(s.geo, Logical(s))
  }

  // The end mark is never a cluster, and a cluster number fits in an entry.
  lemma MarksEnd(g: Geometry)
    ensures LAST_LINK % EntryLimit(g.fsType) == EndMark(g.fsType)
    ensures g.nFatent <= EndMark(g.fsType) < EntryLimit(g.fsType)
  {
  }

  lemma MarkedFat(g: Geometry, v: Image, n: nat)
    requires Holds(g, v) && n < g.nFatent
    ensures Fat(g, Marked(g, v, n)) == Fat(g, v)[n := EndMark(g.fsType)]
  {
    hide Fat, PutEntry;
    FatOfPut(g, v, n, LAST_LINK);
  }

  lemma TakenFat(g: Geometry, v: Image, n: nat, clst: nat)
    requires Holds(g, v) && n < g.nFatent && clst < g.nFatent
    ensures Fat(g, Taken(g, v, n, clst)) ==
      if clst == 0 then Fat(g, v)[n := EndMark(g.fsType)] else Fat(g, v)[n := EndMark(g.fsType)][clst := n]
  {
    hide Fat, PutEntry, SoundLayout;
    MarkedFat(g, v, n);
    if clst != 0 {
      MarksEnd(g);
      FatOfPut(g, Marked(g, v, n), clst, n);
    }
  }

  // create_chain keeps the FAT a set of disjoint acyclic chains. When it takes a cluster, that
  // cluster was free; a new chain consists of it alone, and a stretched chain is the old one with
  // it at the end; every other chain is exactly as before, and no further chain appears.
  lemma CreateKeepsChains(s: State, t: State, clst: nat, scl: nat, r: nat)
    requires Sound(s) && Sound(t) && WellFormed(FatOf(s))
    requires Created(s, t, clst, scl, r) && r != ALL_ONES && t.geo == s.geo
    ensures WellFormed(FatOf(t))
    ensures !Counts(s, clst, r) ==> FatOf(t) == FatOf(s)
    ensures Counts(s, clst, r) ==> FatOf(s)[r] == 0
    ensures Counts(s, clst, r) && clst == 0 ==>
      forall c :: IsChain(FatOf(t), c) <==> IsChain(FatOf(s), c) || c == [r]
    ensures Counts(s, clst, r) && clst != 0 ==>
      && (forall c :: IsChain(FatOf(s), c) ==> IsChain(FatOf(t), Extended(c, clst, r)))
      && (forall c :: IsChain(FatOf(t), c) ==> c == [r] || ExtendsOne(FatOf(s), c, clst, r))
  {
    hide Fat, Logical, Taken, TakingViews, Steps, Undisturbed, Follows;
    var f := FatOf(s);
    if Counts(s, clst, r) {
      TakenFat(s.geo, Logical(s), r, clst);
      MarksEnd(s.geo);
      var g := f[r := EndMark(s.geo.fsType)];
      MarkAddsOne(f, r, EndMark(s.geo.fsType));
      if clst != 0 {
        LinkKeepsWellFormed(g, clst, r);
        forall c | IsChain(FatOf(t), c)
          ensures c == [r] || ExtendsOne(f, c, clst, r)
        {
          assert ExtendsOne(g, c, clst, r);
          var d :| IsChain(g, d) && c == Extended(d, clst, r);
          if d != [r] {
            assert IsChain(f, d);
          }
        }
      }
    } else {
      assert Quiet(s, t) ==> Logical(t) == Logical(s) by {
        QuietKeepsView(s, t);
      }
    }
  }

  // create_chain reports a full disk exactly when no cluster is free, on a table without entries
  // of 1 and a disk without faults.
  lemma CreateFailsWhenFull(s: State, t: State, clst: nat, scl: nat, r: nat)
    requires Sound(s) && s.reliable && Created(s, t, clst, scl, r)
    requires clst == 0 || (IsCluster(FatOf(s), clst) && FatOf(s)[clst] >= s.geo.nFatent)
    requires forall c :: IsCluster(FatOf(s), c) ==> FatOf(s)[c] != 1
    ensures r == 0 <==> forall c :: IsCluster(FatOf(s), c) ==> FatOf(s)[c] != 0
    ensures r != 0 ==> IsCluster(FatOf(s), r)
  {
    hide Fat, Logical, Taken, TakingViews, Steps, Undisturbed;
  }

  // While create_chain works on a FAT16 or FAT32 volume, the disk always shows the old table, or
  // the old table with the free cluster n marked as a chain of its own: well formed, every chain
  // in place, one cluster unreferenced at worst. The same holds when the disk fails half-way.
  lemma CreateSurvivesPowerLoss(s: State, n: nat, clst: nat, w: Image)
    requires Sound(s) && s.geo.fsType != FAT12 && WellFormed(FatOf(s))
    requires IsCluster(FatOf(s), n) && FatOf(s)[n] == 0 && clst < s.geo.nFatent
    requires w in TakingViews(s.geo, Logical(s), n, clst)
    ensures Holds(s.geo, w)
    ensures Fat(s.geo, w) == FatOf(s) || Fat(s.geo, w) == FatOf(s)[n := EndMark(s.geo.fsType)]
    ensures WellFormed(Fat(s.geo, w))
    ensures forall c :: IsChain(Fat(s.geo, w), c) ==> IsChain(FatOf(s), c) || c == [n]
    ensures forall c :: IsChain(FatOf(s), c) ==> IsChain(Fat(s.geo, w), c)
  {
    hide Fat, Logical, PutEntry, Follows;
    MarkedFat(s.geo, Logical(s), n);
    MarksEnd(s.geo);
    MarkAddsOne(FatOf(s), n, EndMark(s.geo.fsType));
  }

  // free_clust stays the number of free clusters.
  lemma CreateKeepsCount(s: State, t: State, clst: nat, scl: nat, r: nat, freeClust: nat)
    requires Sound(s) && Sound(t) && Created(s, t, clst, scl, r) && r != ALL_ONES && t.geo == s.geo
    requires Freeing.Counted(freeClust, s.geo, Logical(s))
    ensures var count := if Counts(s, clst, r) && freeClust != ALL_ONES then Wrap32(freeClust - 1) else freeClust;
      Freeing.Counted(count, t.geo, Logical(t))
  {
    hide Fat, Logical, Taken, TakingViews, Steps, Undisturbed, FreeFrom;
    if Counts(s, clst, r) {
      var f := FatOf(s);
      TakenFat(s.geo, Logical(s), r, clst);
      MarksEnd(s.geo);
      FreeFromOfUpdate(f, 2, r, EndMark(s.geo.fsType));
      if clst != 0 {
        FreeFromOfUpdate(f[r := EndMark(s.geo.fsType)], 2, clst, r);
      }
    } else {
      QuietKeepsView(s, t);
    }
  }

  // On a chain of any table, remove_chain succeeds and frees exactly the clusters of the chain.
  lemma RemoveFreesChain(s: State, t: State, c: seq<nat>, res: FResult)
    requires Sound(s) && Sound(t) && t.geo == s.geo && IsChain(FatOf(s), c)
    requires Freeing.Removed(s, t, c[0], res) && res != DiskErr
    ensures res == Ok && FatOf(t) == Freed(FatOf(s), c)
  {
    hide Fat, Logical, Steps;
    assert Follows(FatOf(s), c, 0);
    WalkFreesChain(FatOf(s), c);
    Freeing.FreedImageWalks(s.geo, Logical(s), c[0]);
  }
}
