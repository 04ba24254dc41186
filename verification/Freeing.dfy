// remove_chain: freeing the clusters of a chain, one entry after the other.
module Freeing {
  import opened Words
  import opened Volume
  import opened FatTable
  import opened FatAccess
  import opened Chains

  lemma FreedEntry(g: Geometry, v: Image, c: nat)
    requires Holds(g, v) && 2 <= c < g.nFatent
    ensures Fat(g, PutEntry(g, v, c, 0)) == Fat(g, v)[c := 0]
    ensures Fat(g, v)[c] != 0 ==> UsedSet(Fat(g, PutEntry(g, v, c, 0))) < UsedSet(Fat(g, v))
  {
    hide Fat, PutEntry, UsedSet;
    FatOfPut(g, v, c, 0);
    if Fat(g, v)[c] != 0 {
      UsedShrinks(Fat(g, v), c);
    }
  }

  // The image remove_chain leaves when it starts at cluster c and nothing fails.
  ghost function FreedImage(g: Geometry, v: Image, c: nat): (w: Image)
    requires Holds(g, v) && c >= 2
    ensures |w| == |v|
    decreases UsedSet(Fat(g, v))
  {
    if c >= g.nFatent || Fat(g, v)[c] <= 1 then v
    else
      FreedEntry(g, v, c);
      FreedImage(g, PutEntry(g, v, c, 0), Fat(g, v)[c])
  }

  // The images the disk may show on the way.
  ghost function FreeingViews(g: Geometry, v: Image, c: nat): (views: iset<Image>)
    requires Holds(g, v) && c >= 2
    ensures v in views
    decreases UsedSet(Fat(g, v))
  {
    if c >= g.nFatent || Fat(g, v)[c] <= 1 then iset{v}
    else
      FreedEntry(g, v, c);
      Partial(g, v, c, 0) + FreeingViews(g, PutEntry(g, v, c, 0), Fat(g, v)[c])
  }

  // What remove_chain does to the table of entries is what Walk does.
  lemma {:induction false} FreedImageWalks(g: Geometry, v: Image, c: nat)
    requires Holds(g, v) && c >= 2
    ensures Fat(g, FreedImage(g, v, c)) == Walk(Fat(g, v), c).f
    decreases UsedSet(Fat(g, v))
  {
    if c < g.nFatent && Fat(g, v)[c] > 1 {
      FreedEntry(g, v, c);
      FreedImageWalks(g, PutEntry(g, v, c, 0), Fat(g, v)[c]);
    }
  }

  lemma {:induction false} EndIsView(g: Geometry, v: Image, c: nat)
    requires Holds(g, v) && c >= 2
    ensures FreedImage(g, v, c) in FreeingViews(g, v, c)
    decreases UsedSet(Fat(g, v))
  {
    if c < g.nFatent && Fat(g, v)[c] > 1 {
      FreedEntry(g, v, c);
      EndIsView(g, PutEntry(g, v, c, 0), Fat(g, v)[c]);
    }
  }

  // From s to t the clusters before c have been freed, starting at first.
  ghost predicate FreedUpTo(s: State, t: State, first: nat, c: nat)
    requires Sound(s) && first >= 2
  {
    && Steps(s, t, FreeingViews(s.geo, Logical(s), first)) && Sound(t) && t.geo == s.geo && c >= 2
    && FreeingViews(s.geo, Logical(t), c) <= FreeingViews(s.geo, Logical(s), first)
    && FreedImage(s.geo, Logical(t), c) == FreedImage(s.geo, Logical(s), first)
    && Walk(Fat(s.geo, Logical(t)), c).ok == Walk(Fat(s.geo, Logical(s)), first).ok
  }

  ghost predicate InFreeing(s: State, t: State, first: nat)
    requires Sound(s) && first >= 2
  {
    Steps(s, t, FreeingViews(s.geo, Logical(s), first)) && Logical(t) in FreeingViews(s.geo, Logical(s), first)
  }

  lemma FreeingStarts(s: State, first: nat)
    requires Sound(s) && 2 <= first
    ensures FreedUpTo(s, s, first, first)
  {
  }

  // Reading the next entry, or failing to.
  lemma FreeingReads(s: State, t: State, u: State, first: nat, c: nat)
    requires Sound(s) && first >= 2 && FreedUpTo(s, t, first, c) && Quiet(t, u)
    ensures FreedUpTo(s, u, first, c)
    ensures InFreeing(s, u, first)
  {
  }

  lemma FreeingStores(s: State, t: State, u: State, first: nat, c: nat, k: nat)
    requires Sound(s) && first >= 2 && FreedUpTo(s, t, first, c)
    requires 2 <= c < s.geo.nFatent && Fat(s.geo, Logical(t))[c] > 1
    requires k <= EntrySize(s.geo.fsType) && Putting(t, u, c, 0, k)
    ensures k == EntrySize(s.geo.fsType) ==> FreedUpTo(s, u, first, Fat(s.geo, Logical(t))[c])
    ensures k == 0 || (k == 1 && s.geo.fsType == FAT12) ==> InFreeing(s, u, first)
  {
    hide Table;
    FreedEntry(s.geo, Logical(t), c);
    assert Partial(s.geo, Logical(t), c, 0) <= FreeingViews(s.geo, Logical(t), c);
    StepsWiden(t, u, Partial(s.geo, Logical(t), c, 0), FreeingViews(s.geo, Logical(s), first));
    StepsCompose(s, t, u, FreeingViews(s.geo, Logical(s), first));
  }

  // free_clust, when known, is the number of free clusters.
  ghost predicate Counted(freeClust: nat, g: Geometry, v: Image)
    requires Holds(g, v)
  {
    freeClust == ALL_ONES || freeClust == FreeCount(Fat(g, v))
  }

  // The counters once that many clusters have been freed: as many more are free, unless the number does
  // not fit 32 bits.
  ghost predicate FreedCounted(c: Counters, d: Counters, freed: int) {
    && freed >= 0 && d.last == c.last
    && (c.free + freed < ALL_ONES ==> d == if freed == 0 then c else Counters(c.last, c.free + freed, Flagged(c.flag)))
  }

  lemma OneMoreCounted(c: Counters, d: Counters, freed: int)
    requires FreedCounted(c, d, freed) && c.free != ALL_ONES
    ensures FreedCounted(c, if d.free == ALL_ONES then d else Counters(d.last, Wrap32(d.free + 1), Flagged(d.flag)), freed + 1)
  {
  }

  lemma NoneCounted(c: Counters)
    ensures FreedCounted(c, c, 0)
  {
  }

  // One more cluster is free, and counted.
  lemma OneMoreFree(freeClust: nat, g: Geometry, v: Image, w: Image, c: nat)
    requires Holds(g, v) && 2 <= c < g.nFatent && Fat(g, v)[c] != 0
    requires w == PutBytes(g, v, c, 0, EntrySize(g.fsType))
    ensures UsedSet(Fat(g, w)) < UsedSet(Fat(g, v)) && FreeCount(Fat(g, w)) == FreeCount(Fat(g, v)) + 1
    ensures Counted(freeClust, g, v) ==>
      Counted(if freeClust == ALL_ONES then ALL_ONES else Wrap32(freeClust + 1), g, w)
  {
    hide Table, Fat, PutBytes, UsedSet, FreeFrom;
    FreedEntry(g, v, c);
    FreeFromOfUpdate(Fat(g, v), 2, c, 0);
  }

  // How remove_chain ends.
  ghost predicate Removed(s: State, t: State, clst: nat, res: FResult)
    requires Sound(s)
  {
    if !(2 <= clst < s.geo.nFatent) then res == IntErr && t == s
    else if res == DiskErr then !s.reliable && InFreeing(s, t, clst)
    else
      && Steps(s, t, FreeingViews(s.geo, Logical(s), clst))
      && Logical(t) == FreedImage(s.geo, Logical(s), clst)
      && res == (if Walk(Fat(s.geo, Logical(s)), clst).ok then Ok else IntErr)
  }

  lemma FreeingEnds(s: State, t: State, first: nat, c: nat)
    requires Sound(s) && 2 <= first < s.geo.nFatent && FreedUpTo(s, t, first, c)
    requires c >= s.geo.nFatent || Fat(s.geo, Logical(t))[c] <= 1
    ensures Removed(s, t, first, if c < s.geo.nFatent && Fat(s.geo, Logical(t))[c] == 1 then IntErr else Ok)
  {
  }

  lemma NothingRemoved(s: State, first: nat)
    requires Sound(s) && !(2 <= first < s.geo.nFatent)
    ensures Removed(s, s, first, IntErr)
  {
  }

  lemma RemovalFails(s: State, t: State, first: nat)
    requires Sound(s) && 2 <= first < s.geo.nFatent && !s.reliable && InFreeing(s, t, first)
    ensures Removed(s, t, first, DiskErr)
  {
  }

  // One round of the loop of remove_chain: reads the successor of clst and, when there is one,
  // frees clst. DiskErr when the disk fails.
  method FreeOne(fs: Fatfs, clst: u32, ghost first: nat, ghost s: State) returns (nxt: u32, res: FResult)
    requires fs.Valid() && Sound(s) && first >= 2 && 2 <= clst < fs.geo.nFatent
    requires FreedUpTo(s, fs.Now(), first, clst)
    modifies fs`wflag, fs`winsect, fs.win, fs.disk
    ensures fs.Valid() && (res == Ok || res == DiskErr)
    ensures res == Ok ==> nxt == old(Fat(fs.geo, fs.View())[clst])
    ensures res == Ok && nxt <= 1 ==> FreedUpTo(s, fs.Now(), first, clst) && fs.View() == old(fs.View())
    ensures res == Ok && nxt > 1 ==>
      FreedUpTo(s, fs.Now(), first, nxt) &&
      fs.View() == PutBytes(fs.geo, old(fs.View()), clst, 0, EntrySize(fs.geo.fsType))
    ensures res == DiskErr ==> !fs.disk.reliable && InFreeing(s, fs.Now(), first)
  {
    hide Table, Reached, FreeingViews, FreedImage, Walk, Fat, PutBytes, PutEntry, Partial, Visible, FreedUpTo, InFreeing;
    ghost var t := fs.Now();
    EntriesAreSmall(fs.geo, fs.View());
    res := Ok;
    nxt := GetFat(fs, clst);
    ghost var u := fs.Now();
    FreeingReads(s, t, u, first, clst);
    if nxt == ALL_ONES {
      res := DiskErr;
    } else if nxt > 1 {
      res := PutFat(fs, clst, 0);
      FreeingStores(s, u, fs.Now(), first, clst,
                    if res == Ok then EntrySize(fs.geo.fsType) else if Putting(u, fs.Now(), clst, 0, 0) then 0 else 1);
    }
  }

  // Keeps track of one more free cluster.
  method CountFreed(fs: Fatfs)
    modifies fs`freeClust, fs`fsiFlag
    ensures fs.Kept() == if old(fs.freeClust) == ALL_ONES then old(fs.Kept())
                         else Counters(old(fs.lastClust), Wrap32(old(fs.freeClust) + 1), Flagged(old(fs.fsiFlag)))
  {
    if fs.freeClust != ALL_ONES {
      fs.freeClust := Wrap32(fs.freeClust + 1);
      fs.fsiFlag := Flagged(fs.fsiFlag);
    }
  }

  method RemoveChain(fs: Fatfs, first: u32) returns (res: FResult)
    requires fs.Valid()
    modifies fs`wflag, fs`winsect, fs`freeClust, fs`fsiFlag, fs.win, fs.disk
    ensures fs.Valid()
    ensures Removed(old(fs.Now()), fs.Now(), first, res)
    ensures old(Counted(fs.freeClust, fs.geo, fs.View())) && (res == Ok || res == IntErr) ==>
      Counted(fs.freeClust, fs.geo, fs.View())
    ensures old(fs.freeClust) == ALL_ONES ==> fs.Kept() == old(fs.Kept())
    ensures old(fs.freeClust) != ALL_ONES && res != DiskErr ==>
      var freed := FreeCount(Fat(fs.geo, fs.View())) - FreeCount(Fat(fs.geo, old(fs.View())));
      FreedCounted(old(fs.Kept()), fs.Kept(), freed)
  {
    hide FreedCounted, Table, Logical, Reached, FreeingViews, FreedImage, Walk, Fat, PutBytes, Visible, FreeCount,
         FreedUpTo, InFreeing, UsedSet, Removed;
    ghost var s := fs.Now();
    NoneCounted(fs.Kept());
    if first < 2 || first >= fs.geo.nFatent {
      NothingRemoved(s, first);
      res := IntErr;
    } else {
      res := Ok;
      var clst := first;
      FreeingStarts(s, first);
      ghost var counted := Counted(fs.freeClust, fs.geo, fs.View());
      while clst < fs.geo.nFatent
        invariant fs.Valid() && clst >= 2 && FreedUpTo(s, fs.Now(), first, clst)
        invariant counted ==> Counted(fs.freeClust, fs.geo, fs.View())
        invariant res == Ok && (old(fs.freeClust) == ALL_ONES ==> fs.Kept() == old(fs.Kept()))
        invariant old(fs.freeClust) != ALL_ONES ==>
          FreedCounted(old(fs.Kept()), fs.Kept(), FreeCount(Fat(fs.geo, fs.View())) - FreeCount(Fat(fs.geo, Logical(s))))
        decreases UsedSet(Fat(fs.geo, fs.View()))
      {
        ghost var v := fs.View();
        var nxt;
        nxt, res := FreeOne(fs, clst, first, s);
        if res != Ok {
          RemovalFails(s, fs.Now(), first);
          return;
        }
        if nxt == 0 || nxt == 1 {
          FreeingEnds(s, fs.Now(), first, clst);
          return if nxt == 1 then IntErr else Ok;
        }
        OneMoreFree(fs.freeClust, fs.geo, v, fs.View(), clst);
        if old(fs.freeClust) != ALL_ONES {
          OneMoreCounted(old(fs.Kept()), fs.Kept(), FreeCount(Fat(fs.geo, v)) - FreeCount(Fat(fs.geo, Logical(s))));
        }
        CountFreed(fs);
        clst := nxt;
      }
      FreeingEnds(s, fs.Now(), first, clst);
    }
  }
}
