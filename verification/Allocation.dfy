// create_chain and remove_chain: taking and freeing clusters.
module Allocation {
  import opened Words
  import opened Volume
  import opened FatTable
  import opened FatAccess
  import opened Chains

  // The search for a free cluster that starts after scl and wraps around looks at k before n.
  predicate ScannedBefore(scl: int, k: int, n: int) {
    if n > scl then scl < k < n else k > scl || k < n
  }

  // The cluster the search settles on.
  ghost predicate Chosen(f: seq<nat>, scl: int, n: int) {
    IsCluster(f, n) && f[n] == 0 && forall k :: IsCluster(f, k) && ScannedBefore(scl, k, n) ==> f[k] > 1
  }

  // The search gets to an entry that is 1 before it gets to a free cluster.
  ghost predicate IsBlocked(f: seq<nat>, scl: int) {
    exists n :: BlocksAt(f, scl, n)
  }

  ghost predicate BlocksAt(f: seq<nat>, scl: int, n: int) {
    IsCluster(f, n) && f[n] == 1 && forall k :: IsCluster(f, k) && ScannedBefore(scl, k, n) ==> f[k] > 1
  }

  // get_fat, for a caller that has only moved the window since state s.
  method ReadEntry(fs: Fatfs, clst: u32, ghost s: State) returns (val: u32)
    requires fs.Valid() && Quiet(s, fs.Now())
    modifies fs`wflag, fs`winsect, fs.win, fs.disk
    ensures fs.Valid() && Quiet(s, fs.Now())
    ensures !(2 <= clst < fs.geo.nFatent) ==> val == 1
    ensures 2 <= clst < fs.geo.nFatent ==>
      val == Fat(s.geo, Logical(s))[clst] || (val == ALL_ONES && !fs.disk.reliable)
    ensures 2 <= clst < fs.geo.nFatent && val != ALL_ONES ==> InFat(fs.geo, fs.winsect)
    ensures fs.winsect == old(fs.winsect) || fs.winsect == ALL_ONES || InFat(fs.geo, fs.winsect)
  {
    ghost var t := fs.Now();
    val := GetFat(fs, clst);
    QuietCompose(s, t, fs.Now());
  }

  // What the search reports: 0 only when no cluster is free and no entry is 1, 1 only when an entry that
  // is 1 comes first, ALL_ONES only on a faulty disk, and otherwise the first free cluster after scl.
  ghost predicate SearchResult(f: seq<nat>, scl: int, r: int, reliable: bool) {
    if r == 0 then forall c :: IsCluster(f, c) ==> f[c] > 1
    else if r == 1 then IsBlocked(f, scl)
    else if r == ALL_ONES then !reliable
    else Chosen(f, scl, r)
  }

  // The clusters looked at so far, up to and including ncl, are all used.
  ghost predicate AllUsed(f: seq<nat>, scl: int, ncl: int, wrapped: bool) {
    forall k :: IsCluster(f, k) && (if wrapped then k > scl || k <= ncl else scl < k <= ncl) ==> f[k] > 1
  }

  lemma SearchEnds(f: seq<nat>, scl: int, ncl: int, wrapped: bool, cs: int, reliable: bool)
    requires IsCluster(f, ncl) && AllUsed(f, scl, ncl - 1, wrapped)
    requires if wrapped then ncl <= scl else scl < ncl
    requires cs == f[ncl] || (cs == ALL_ONES && !reliable)
    ensures cs == 0 && ncl != ALL_ONES ==> SearchResult(f, scl, ncl, reliable)
    ensures cs == 1 ==> SearchResult(f, scl, 1, reliable)
    ensures cs == ALL_ONES && |f| < ALL_ONES && (forall k :: IsCluster(f, k) ==> f[k] < ALL_ONES) ==>
      SearchResult(f, scl, ALL_ONES, reliable)
    ensures cs > 1 && cs != ALL_ONES ==> AllUsed(f, scl, ncl, wrapped)
    ensures cs > 1 && cs != ALL_ONES && ncl == scl ==> SearchResult(f, scl, 0, reliable)
  {
    if cs == 1 {
      assert BlocksAt(f, scl, ncl);
    }
  }

  // The search loop of create_chain: 0 when there is no free cluster.
  method FindFree(fs: Fatfs, scl: u32, ghost s: State) returns (ncl: u32)
    requires fs.Valid() && Quiet(s, fs.Now()) && 1 <= scl < fs.geo.nFatent
    modifies fs`wflag, fs`winsect, fs.win, fs.disk
    ensures fs.Valid() && Quiet(s, fs.Now())
    ensures SearchResult(Fat(s.geo, Logical(s)), scl, ncl, fs.disk.reliable)
    ensures fs.winsect == old(fs.winsect) || fs.winsect == ALL_ONES || InFat(fs.geo, fs.winsect)
  {
    ghost var f := Fat(s.geo, Logical(s));
    EntriesAreSmall(s.geo, Logical(s));
    ncl := scl;
    ghost var wrapped := false;
    while true
      invariant Quiet(s, fs.Now())
      invariant if wrapped then 2 <= ncl < scl else scl <= ncl < fs.geo.nFatent
      invariant AllUsed(f, scl, ncl, wrapped)
      invariant fs.winsect == old(fs.winsect) || fs.winsect == ALL_ONES || InFat(fs.geo, fs.winsect)
      decreases if wrapped then 0 else 1, fs.geo.nFatent - ncl
    {
      ncl := ncl + 1;
      if ncl >= fs.geo.nFatent {
        ncl := 2;
        wrapped := true;
        if ncl > scl {
          return 0;
        }
      }
      var cs := ReadEntry(fs, ncl, s);
      SearchEnds(f, scl, ncl, wrapped, cs, fs.disk.reliable);
      if cs == 0 {
        return;
      }
      if cs == ALL_ONES || cs == 1 {
        return cs;
      }
      if ncl == scl {
        return 0;
      }
    }
  }

  // ----- create_chain

  const LAST_LINK: u32 := 0x0FFF_FFFF

  // The views on the way to taking cluster n and linking clst to it (clst 0: no link).
  function Marked(g: Geometry, v: Image, n: nat): Image
    requires Holds(g, v) && n < g.nFatent
  {
    PutEntry(g, v, n, LAST_LINK)
  }

  function Taken(g: Geometry, v: Image, n: nat, clst: nat): Image
    requires Holds(g, v) && n < g.nFatent && clst < g.nFatent
  {
    if clst == 0 then Marked(g, v, n) else PutEntry(g, Marked(g, v, n), clst, n)
  }

  // What the disk may show while cluster n is being taken: the end mark is never missing once the
  // link has been stored.
  ghost function TakingViews(g: Geometry, v: Image, n: nat, clst: nat): iset<Image>
    requires Holds(g, v) && n < g.nFatent && clst < g.nFatent
  {
    Partial(g, v, n, LAST_LINK) + if clst == 0 then iset{} else Partial(g, Marked(g, v, n), clst, n)
  }

  ghost predicate Taking(s: State, t: State, n: nat, clst: nat, done: bool)
    requires Sound(s) && n < s.geo.nFatent && clst < s.geo.nFatent
  {
    && Steps(s, t, TakingViews(s.geo, Logical(s), n, clst))
    && if done then Logical(t) == Taken(s.geo, Logical(s), n, clst)
       else Logical(t) in TakingViews(s.geo, Logical(s), n, clst)
  }

  lemma TakingMarks(s: State, t: State, u: State, n: nat, clst: nat, k: nat)
    requires Sound(s) && n < s.geo.nFatent && clst < s.geo.nFatent && Quiet(s, t)
    requires k <= EntrySize(s.geo.fsType) && Putting(t, u, n, LAST_LINK, k)
    ensures k == EntrySize(s.geo.fsType) && clst == 0 ==> Taking(s, u, n, clst, true)
    ensures k == EntrySize(s.geo.fsType) && clst != 0 ==> Taking(s, u, n, clst, false)
    ensures k == 0 || (k == 1 && s.geo.fsType == FAT12) ==> Taking(s, u, n, clst, false)
  {
  }

  lemma TakingLinks(s: State, t: State, u: State, w: State, n: nat, clst: nat, k: nat)
    requires Sound(s) && n < s.geo.nFatent && 0 < clst < s.geo.nFatent && Quiet(s, t)
    requires Putting(t, u, n, LAST_LINK, EntrySize(s.geo.fsType))
    requires k <= EntrySize(s.geo.fsType) && Putting(u, w, clst, n, k)
    ensures k == EntrySize(s.geo.fsType) ==> Taking(s, w, n, clst, true)
    ensures k == 0 || (k == 1 && s.geo.fsType == FAT12) ==> Taking(s, w, n, clst, false)
  {
    hide SoundLayout;
  }

  // Stores the end mark in cluster n and the link to it in clst.
  method TakeCluster(fs: Fatfs, n: u32, clst: u32, ghost s: State) returns (res: FResult)
    requires fs.Valid() && Quiet(s, fs.Now())
    requires 2 <= n < fs.geo.nFatent && (clst == 0 || 2 <= clst < fs.geo.nFatent)
    modifies fs`wflag, fs`winsect, fs.win, fs.disk
    ensures fs.Valid()
    ensures res == Ok ==> Taking(s, fs.Now(), n, clst, true) && InFat(fs.geo, fs.winsect)
    ensures res != Ok ==> res == DiskErr && !fs.disk.reliable && Taking(s, fs.Now(), n, clst, false)
  {
    hide Table, PutBytes, PutEntry, TakingViews, Partial, Fat, Taken;
    ghost var t := fs.Now();
    res := PutFat(fs, n, LAST_LINK);
    ghost var u := fs.Now();
    TakingMarks(s, t, u, n, clst, if res == Ok then EntrySize(fs.geo.fsType) else if Putting(t, u, n, LAST_LINK, 0) then 0 else 1);
    if res == Ok && clst != 0 {
      res := PutFat(fs, clst, n);
      TakingLinks(s, t, u, fs.Now(), n, clst,
                  if res == Ok then EntrySize(fs.geo.fsType) else if Putting(u, fs.Now(), clst, n, 0) then 0 else 1);
    }
  }

  // Where the search starts: after the cluster to stretch, or after the last one allocated.
  function ScanStart(clst: nat, lastClust: nat, nFatent: nat): nat {
    if clst != 0 then clst
    else if lastClust == 0 || lastClust >= nFatent then 1 else lastClust
  }

  // What create_chain does from state s to state t when it returns r.
  ghost predicate Created(s: State, t: State, clst: nat, scl: nat, r: nat)
    requires Sound(s)
  {
    var f := Fat(s.geo, Logical(s));
    if r == ALL_ONES then
      // a disk error; at worst a free cluster has been marked
      !s.reliable && (Quiet(s, t) || exists n :: Chosen(f, scl, n) && clst < |f| && Taking(s, t, n, clst, false))
    else if clst != 0 && !(IsCluster(f, clst) && f[clst] >= 2) then
      // clst is not a used cluster
      r == 1 && Quiet(s, t)
    else if clst != 0 && f[clst] < |f| then
      // the chain goes on already
      r == f[clst] && Quiet(s, t)
    else if r <= 1 then
      // no free cluster, or an entry that is 1
      SearchResult(f, scl, r, s.reliable) && Quiet(s, t)
    else
      // cluster r is taken, and linked to clst when there is one
      Chosen(f, scl, r) && Taking(s, t, r, clst, true) && InFat(t.geo, t.winsect)
  }

  // create_chain has taken a new cluster.
  ghost predicate Counts(s: State, clst: nat, r: nat)
    requires Sound(s)
  {
    var f := Fat(s.geo, Logical(s));
    1 < r < |f| && (clst == 0 || (IsCluster(f, clst) && f[clst] >= |f|))
  }

  // The outcomes that leave the table alone.
  lemma CreatedNothing(s: State, t: State, clst: nat, scl: nat, r: nat)
    requires Sound(s) && Quiet(s, t)
    requires var f := Fat(s.geo, Logical(s));
      || (r == ALL_ONES && !s.reliable)
      || (r == 1 && clst != 0 && !(IsCluster(f, clst) && f[clst] >= 2))
      || (clst != 0 && IsCluster(f, clst) && 2 <= f[clst] < |f| && r == f[clst])
      || (r <= 1 && (clst == 0 || (IsCluster(f, clst) && f[clst] >= |f|)) && SearchResult(f, scl, r, s.reliable))
    ensures Created(s, t, clst, scl, r) && !Counts(s, clst, r)
  {
    hide Fat, Logical;
    EntriesAreSmall(s.geo, Logical(s));
  }

  lemma CreatedOne(s: State, t: State, clst: nat, scl: nat, n: nat, r: nat)
    requires Sound(s) && clst < s.geo.nFatent && Chosen(Fat(s.geo, Logical(s)), scl, n)
    requires clst == 0 || (IsCluster(Fat(s.geo, Logical(s)), clst) && Fat(s.geo, Logical(s))[clst] >= s.geo.nFatent)
    requires if r == ALL_ONES then !s.reliable && Taking(s, t, n, clst, false)
      else r == n && Taking(s, t, n, clst, true) && InFat(t.geo, t.winsect)
    ensures Created(s, t, clst, scl, r) && (Counts(s, clst, r) <==> r == n)
  {
    hide Fat, Logical, TakingViews, Taken;
    EntriesAreSmall(s.geo, Logical(s));
  }

  // The start of create_chain: what it returns when clst is no cluster to be stretched. goes is false
  // when a new cluster is wanted.
  method Successor(fs: Fatfs, clst: u32) returns (goes: bool, cs: u32)
    requires fs.Valid()
    modifies fs`wflag, fs`winsect, fs.win, fs.disk
    ensures fs.Valid() && Quiet(old(fs.Now()), fs.Now())
    ensures fs.winsect == old(fs.winsect) || fs.winsect == ALL_ONES || InFat(fs.geo, fs.winsect)
    ensures goes ==> clst != 0 && Created(old(fs.Now()), fs.Now(), clst, clst, cs) && !Counts(old(fs.Now()), clst, cs)
    ensures !goes && clst != 0 ==>
      IsCluster(Fat(fs.geo, old(fs.View())), clst) && Fat(fs.geo, old(fs.View()))[clst] >= fs.geo.nFatent
  {
    hide Table, Reached, Undisturbed, Logical, Visible, Fat, Created, Counts;
    ghost var s := fs.Now();
    QuietRefl(s);
    EntriesAreSmall(s.geo, Logical(s));
    goes, cs := false, 0;
    if clst != 0 {
      cs := ReadEntry(fs, clst, s);
      if cs < 2 {
        CreatedNothing(s, fs.Now(), clst, clst, 1);
        return true, 1;
      }
      if cs == ALL_ONES {
        CreatedNothing(s, fs.Now(), clst, clst, cs);
        return true, cs;
      }
      if cs < fs.geo.nFatent {
        CreatedNothing(s, fs.Now(), clst, clst, cs);
        return true, cs;
      }
    }
  }

  // The counters once cluster n has been taken.
  function Noted(c: Counters, n: u32): Counters {
    if c.free == ALL_ONES then c.(last := n) else Counters(n, Wrap32(c.free - 1), Flagged(c.flag))
  }

  method CreateChain(fs: Fatfs, clst: u32) returns (ncl: u32)
    requires fs.Valid()
    modifies fs`wflag, fs`winsect, fs`lastClust, fs`freeClust, fs`fsiFlag, fs.win, fs.disk
    ensures fs.Valid()
    ensures Created(old(fs.Now()), fs.Now(), clst, ScanStart(clst, old(fs.lastClust), fs.geo.nFatent), ncl)
    ensures var taken := Counts(old(fs.Now()), clst, ncl);
      && fs.lastClust == (if taken then ncl else old(fs.lastClust))
      && fs.freeClust == (if taken && old(fs.freeClust) != ALL_ONES then Wrap32(old(fs.freeClust) - 1) else old(fs.freeClust))
      && fs.Kept() == (if taken then Noted(old(fs.Kept()), ncl) else old(fs.Kept()))
    ensures ncl != ALL_ONES ==> fs.winsect == old(fs.winsect) || fs.winsect == ALL_ONES || InFat(fs.geo, fs.winsect)
  {
    hide Table, PutBytes, PutEntry, TakingViews, Partial, Reached, Undisturbed, Logical, Taken, Visible, Fat,
         Created, Counts, Taking;
    ghost var s := fs.Now();
    var goes, next := Successor(fs, clst);
    if goes {
      return next;
    }
    var scl := clst;
    if clst == 0 {
      scl := fs.lastClust;
      if scl == 0 || scl >= fs.geo.nFatent {
        scl := 1;
      }
    }
    ncl := FindFree(fs, scl, s);
    if ncl == 0 || ncl == 1 || ncl == ALL_ONES {
      CreatedNothing(s, fs.Now(), clst, scl, ncl);
      return;
    }
    ncl := TakeFound(fs, ncl, clst, scl, s);
  }

  // The end of create_chain, with the free cluster that has been found.
  method TakeFound(fs: Fatfs, found: u32, clst: u32, ghost scl: nat, ghost s: State) returns (ncl: u32)
    requires fs.Valid() && Quiet(s, fs.Now()) && Sound(s) && s.geo == fs.geo && s.reliable == fs.disk.reliable
    requires Chosen(Fat(s.geo, Logical(s)), scl, found) && 2 <= found < fs.geo.nFatent
    requires clst == 0 || (IsCluster(Fat(s.geo, Logical(s)), clst) && Fat(s.geo, Logical(s))[clst] >= s.geo.nFatent)
    modifies fs`wflag, fs`winsect, fs`lastClust, fs`freeClust, fs`fsiFlag, fs.win, fs.disk
    ensures fs.Valid() && Created(s, fs.Now(), clst, scl, ncl)
    ensures var taken := Counts(s, clst, ncl);
      && fs.lastClust == (if taken then ncl else old(fs.lastClust))
      && fs.freeClust == (if taken && old(fs.freeClust) != ALL_ONES then Wrap32(old(fs.freeClust) - 1) else old(fs.freeClust))
      && fs.Kept() == (if taken then Noted(old(fs.Kept()), ncl) else old(fs.Kept()))
    ensures ncl != ALL_ONES ==> InFat(fs.geo, fs.winsect)
  {
    hide Table, PutBytes, PutEntry, TakingViews, Partial, Reached, Undisturbed, Logical, Taken, Visible, Fat,
         Created, Counts, Taking, SoundLayout, Chosen;
    SmallTable(fs.geo);
    var res := TakeCluster(fs, found, clst, s);
    CreatedOne(s, fs.Now(), clst, scl, found, if res == Ok then found else ALL_ONES);
    if res == Ok {
      ncl := found;
      fs.lastClust := ncl;
      if fs.freeClust != ALL_ONES {
        fs.freeClust := Wrap32(fs.freeClust - 1);
        fs.fsiFlag := Flagged(fs.fsiFlag);
      }
    } else {
      ncl := 1;
      if res == DiskErr {
        ncl := ALL_ONES;
      }
    }
  }
}
