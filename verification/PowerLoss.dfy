// What a power failure during f_unlink can leave on the disk.
module PowerLoss {
  import opened Volume
  import opened FatTable
  import opened FatAccess
  import opened Chains
  import opened DirTable
  import opened Freeing
  import opened Unlink

  // Freeing a chain touches FAT sectors only.
  lemma {:induction false} FreeingStaysInFat(g: Geometry, v: Image, c: nat, w: Image, s: nat)
    requires Holds(g, v) && c >= 2 && w in FreeingViews(g, v, c) && s < |v| && !InFat(g, s)
    ensures |w| == |v| && w[s] == v[s]
    decreases UsedSet(Fat(g, v))
  {
    hide Fat, PutBytes;
    if c < g.nFatent && Fat(g, v)[c] > 1 {
      FreedEntry(g, v, c);
      PutStaysInFat(g, v, c, 0, EntrySize(g.fsType), s);
      PutStaysInFat(g, v, c, 0, 1, s);
      if w !in Partial(g, v, c, 0) {
        FreeingStaysInFat(g, PutEntry(g, v, c, 0), Fat(g, v)[c], w, s);
      } else {
        PutKeepsSize(g, v, c, 0, 1);
      }
    }
  }

  lemma PutKeepsSize(g: Geometry, v: Image, c: nat, val: nat, k: nat)
    requires Holds(g, v) && c < g.nFatent && k <= EntrySize(g.fsType)
    ensures |PutBytes(g, v, c, val, k)| == |v|
  {
  }

  // Whatever moment one stops at, only entries of the chain differ; on FAT16 and FAT32 they are
  // those of the first k clusters, and they are free.
  ghost predicate FreedSoFar(g: Geometry, v: Image, s: seq<nat>, w: Image)
    requires Holds(g, v)
  {
    && Holds(g, w)
    && (forall d :: 0 <= d < g.nFatent && d !in s ==> Fat(g, w)[d] == Fat(g, v)[d])
    && (g.fsType != FAT12 ==> FreedPrefix(Fat(g, v), s, Fat(g, w)))
  }

  ghost predicate FreedPrefix(f: seq<nat>, s: seq<nat>, h: seq<nat>) {
    exists k :: 0 <= k <= |s| && h == Freed(f, s[..k])
  }

  lemma {:induction false} FreeingOnChain(g: Geometry, v: Image, s: seq<nat>, w: Image)
    requires Holds(g, v) && IsChain(Fat(g, v), s) && s[0] >= 2 && w in FreeingViews(g, v, s[0])
    ensures FreedSoFar(g, v, s, w)
    decreases |s|
  {
    hide Fat, PutBytes, PutEntry;
    var f := Fat(g, v);
    assert Follows(f, s, 0);
    FreeingStaysInFat(g, v, s[0], w, 0);
    NothingFreed(f, s);
    if w in Partial(g, v, s[0], 0) {
      PartialKeepsOthers(g, v, s[0], w);
    } else {
      ChainIsUsed(f, s, 0);
      FreedEntry(g, v, s[0]);
      var v' := PutEntry(g, v, s[0], 0);
      if |s| == 1 {
        assert w == v';
        FreedFirst(f, s);
      } else {
        NextIsChain(f, s);
        FreeingOnChain(g, v', s[1..], w);
        if g.fsType != FAT12 {
          FreedFurther(f, s, Fat(g, w));
        }
      }
    }
  }

  lemma NothingFreed(f: seq<nat>, s: seq<nat>)
    ensures FreedPrefix(f, s, f)
  {
    assert Freed(f, s[..0]) == f;
  }

  lemma FreedFirst(f: seq<nat>, s: seq<nat>)
    requires IsChain(f, s) && s[0] < |f|
    ensures FreedPrefix(f, s, f[s[0] := 0])
  {
    assert Follows(f, s, 0);
    assert Freed(f, s[..1]) == f[s[0] := 0];
  }

  lemma FreedFurther(f: seq<nat>, s: seq<nat>, h: seq<nat>)
    requires s != [] && s[0] < |f| && FreedPrefix(f[s[0] := 0], s[1..], h)
    ensures FreedPrefix(f, s, h)
  {
    var k :| 0 <= k <= |s[1..]| && h == Freed(f[s[0] := 0], s[1..][..k]);
    assert s[..k + 1][1..] == s[1..][..k];
    FreedOne(f, s[..k + 1]);
  }

  lemma PartialKeepsOthers(g: Geometry, v: Image, c: nat, w: Image)
    requires Holds(g, v) && 2 <= c < g.nFatent && w in Partial(g, v, c, 0)
    ensures Holds(g, w) && forall d :: 0 <= d < g.nFatent && d != c ==> Fat(g, w)[d] == Fat(g, v)[d]
    ensures g.fsType != FAT12 ==> w == v
  {
    hide Fat, PutBytes;
    if g.fsType == FAT12 {
      PutKeepsSize(g, v, c, 0, 1);
      forall d | 0 <= d < g.nFatent && d != c
        ensures Fat(g, w)[d] == Fat(g, v)[d]
      {
        if w != v {
          OthersKept(g, v, c, 0, 1, d);
        }
      }
    }
  }

  // Freeing the first cluster of a chain that nothing links into leaves the table well formed, with
  // the rest of the chain as a chain that nothing links into.
  lemma FreeingHead(f: seq<nat>, s: seq<nat>)
    requires WellFormed(f) && IsChain(f, s) && IsHead(f, s[0]) && s[0] < |f|
    ensures WellFormed(f[s[0] := 0])
    ensures |s| > 1 ==> IsChain(f[s[0] := 0], s[1..]) && IsHead(f[s[0] := 0], s[1])
  {
    var g := f[s[0] := 0];
    assert Follows(f, s, 0);
    forall c | IsCluster(g, c) && g[c] != 0
      ensures HasChain(g, c)
    {
      assert IsCluster(f, c) && HasChain(f, c);
      var t :| IsChain(f, t) && t[0] == c;
      forall j | 0 <= j < |t|
        ensures t[j] != s[0]
      {
        if j > 0 {
          assert Follows(f, t, j - 1);
        }
      }
      ChainKept(f, g, t);
    }
    if |s| > 1 {
      NextIsChain(f, s);
      assert Follows(f, s, 1) && IsCluster(f, f[s[0]]);
      forall d | IsCluster(g, d)
        ensures g[d] != s[1]
      {
        assert IsCluster(f, d) && IsCluster(f, s[0]);
      }
    }
  }

  // The worst outcome on FAT16 and FAT32: the table is well formed, and what is left of the chain is
  // a chain that nothing links into.
  ghost predicate RestIsLeft(f: seq<nat>, s: seq<nat>, h: seq<nat>) {
    WellFormed(h) && exists k :: 0 <= k <= |s| && RestFrom(f, s, h, k)
  }

  ghost predicate RestFrom(f: seq<nat>, s: seq<nat>, h: seq<nat>, k: nat)
    requires k <= |s|
  {
    h == Freed(f, s[..k]) && (k < |s| ==> IsChain(h, s[k..]) && IsHead(h, s[k]))
  }

  lemma {:induction false} FreeingPrefix(f: seq<nat>, s: seq<nat>, k: nat)
    requires WellFormed(f) && IsChain(f, s) && IsHead(f, s[0]) && k <= |s|
    ensures WellFormed(Freed(f, s[..k])) && RestFrom(f, s, Freed(f, s[..k]), k)
    decreases k
  {
    hide WellFormed, IsHead, Follows;
    if k == 0 {
      assert Freed(f, s[..0]) == f && s[0..] == s;
    } else {
      ChainIsUsed(f, s, 0);
      FreeingHead(f, s);
      assert s[..k][1..] == s[1..][..k - 1];
      FreedOne(f, s[..k]);
      if |s| > 1 {
        FreeingPrefix(f[s[0] := 0], s[1..], k - 1);
        assert s[1..][k - 1..] == s[k..];
      } else {
        assert Freed(f[s[0] := 0], []) == f[s[0] := 0];
      }
    }
  }

  lemma RestOfFreed(f: seq<nat>, s: seq<nat>, h: seq<nat>)
    requires WellFormed(f) && IsChain(f, s) && IsHead(f, s[0]) && FreedPrefix(f, s, h)
    ensures RestIsLeft(f, s, h)
  {
    hide WellFormed, IsHead, Follows, RestFrom;
    var k :| 0 <= k <= |s| && h == Freed(f, s[..k]);
    FreeingPrefix(f, s, k);
    assert RestFrom(f, s, h, k);
  }

  // Every image the disk shows while f_unlink deletes the entry at p with the chain s: the FAT is
  // untouched until the entry is marked deleted; sectors other than the entry's and those of the
  // FAT never change, nor do the other entries of the directory sector; and of the FAT only the
  // chain's own entries do, so that every other chain is there throughout. On FAT16 and FAT32 the
  // worst outcome is a chain that nothing links into.
  lemma UnlinkSurvivesPowerLoss(g: Geometry, v: Image, p: Place, s: seq<nat>, w: Image)
    requires Holds(g, v) && p.sect < |v| && !InFat(g, p.sect) && p.dir + SZ_DIRE <= SS
    requires WellFormed(Fat(g, v)) && IsChain(Fat(g, v), s) && IsHead(Fat(g, v), s[0])
    requires w in UnlinkViews(g, v, p, s[0])
    ensures |w| == |v|
    ensures w == v || w[p.sect][p.dir] == 0xE5
    ensures w == v || forall i :: p.dir < i < p.dir + 32 ==> w[p.sect][i] == 0
    ensures forall i :: 0 <= i < |v| && !InFat(g, i) && i != p.sect ==> w[i] == v[i]
    ensures forall i :: 0 <= i < SS && !(p.dir <= i < p.dir + SZ_DIRE) ==> w[p.sect][i] == v[p.sect][i]
    ensures FreedSoFar(g, v, s, w) && (g.fsType != FAT12 ==> RestIsLeft(Fat(g, v), s, Fat(g, w)))
    ensures forall t :: IsChain(Fat(g, v), t) && t[0] !in s ==> IsChain(Fat(g, w), t)
  {
    hide Fat, FreeingViews, Marked, Follows, WellFormed, IsHead, RestIsLeft;
    var f := Fat(g, v);
    var e := Erased(v, p);
    FatElsewhere(g, v, e);
    NothingFreed(f, s);
    assert s[0] >= 2 by {
      ChainIsUsed(f, s, 0);
    }
    if w in FreeingViews(g, e, s[0]) {
      forall i | 0 <= i < |v| && !InFat(g, i)
        ensures |w| == |v| && w[i] == e[i]
      {
        FreeingStaysInFat(g, e, s[0], w, i);
      }
      assert w[p.sect] == e[p.sect];
      FreeingOnChain(g, e, s, w);
    }
    if g.fsType != FAT12 {
      RestOfFreed(f, s, Fat(g, w));
    }
    forall t | IsChain(f, t) && t[0] !in s
      ensures IsChain(Fat(g, w), t)
    {
      forall j | 0 <= j < |t|
        ensures t[j] !in s && IsCluster(f, t[j])
      {
        OutsideStaysOutside(f, s, t, j);
        ChainIsUsed(f, t, j);
      }
      ChainKept(f, Fat(g, w), t);
    }
  }
}
