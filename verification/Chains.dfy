// Cluster chains over a table of FAT entries: when a table is a set of disjoint acyclic chains,
// and what marking, linking and freeing clusters does to it.
module Chains {

  // The table at index c: 0 free, 2 up to |f| a link, anything larger the end of a chain.
  predicate IsCluster(f: seq<nat>, c: int) {
    2 <= c < |f|
  }

  // Element i of s is a cluster that links to the next element; the last one ends the chain.
  predicate Follows(f: seq<nat>, s: seq<nat>, i: int)
    requires 0 <= i < |s|
  {
    IsCluster(f, s[i]) && if i == |s| - 1 then f[s[i]] >= |f| else f[s[i]] == s[i + 1]
  }

  // s lists the clusters of a chain from its first element to its end.
  ghost predicate IsChain(f: seq<nat>, s: seq<nat>) {
    s != [] && forall i :: 0 <= i < |s| ==> Follows(f, s, i)
  }

  ghost predicate HasChain(f: seq<nat>, c: int) {
    exists s :: IsChain(f, s) && s[0] == c
  }

  // Every used cluster starts a chain that ends, and no two clusters link to the same one: the
  // table is a set of disjoint acyclic chains.
  ghost predicate WellFormed(f: seq<nat>) {
    && (forall c :: IsCluster(f, c) && f[c] != 0 ==> HasChain(f, c))
    && (forall c, d :: IsCluster(f, c) && IsCluster(f, d) && c != d && IsCluster(f, f[c]) ==> f[c] != f[d])
  }

  // No cluster links to c.
  ghost predicate IsHead(f: seq<nat>, c: int) {
    forall d :: IsCluster(f, d) ==> f[d] != c
  }

  lemma ChainTail(f: seq<nat>, s: seq<nat>, k: nat)
    requires IsChain(f, s) && k < |s|
    ensures IsChain(f, s[k..])
  {
    forall i | 0 <= i < |s| - k
      ensures Follows(f, s[k..], i)
    {
      assert Follows(f, s, k + i);
    }
  }

  lemma {:induction false} ChainIsUnique(f: seq<nat>, s: seq<nat>, t: seq<nat>)
    requires IsChain(f, s) && IsChain(f, t) && s[0] == t[0]
    ensures s == t
  {
    assert Follows(f, s, 0) && Follows(f, t, 0);
    if |s| > 1 {
      assert Follows(f, s, 1);
    }
    if |t| > 1 {
      assert Follows(f, t, 1);
    }
    assert |s| == 1 <==> |t| == 1;
    if |s| > 1 {
      ChainTail(f, s, 1);
      ChainTail(f, t, 1);
      ChainIsUnique(f, s[1..], t[1..]);
      assert s == [s[0]] + s[1..] && t == [t[0]] + t[1..];
    }
  }

  // A chain visits no cluster twice.
  lemma ChainIsDistinct(f: seq<nat>, s: seq<nat>, i: nat, j: nat)
    requires IsChain(f, s) && i < j < |s|
    ensures s[i] != s[j]
  {
    if s[i] == s[j] {
      ChainTail(f, s, i);
      ChainTail(f, s, j);
      ChainIsUnique(f, s[i..], s[j..]);
    }
  }

  // Two chains of a well-formed table that meet are one a tail of the other.
  lemma {:induction false} ChainsMeet(f: seq<nat>, s: seq<nat>, t: seq<nat>, i: nat, j: nat)
    requires WellFormed(f) && IsChain(f, s) && IsChain(f, t)
    requires i < |s| && j < |t| && s[i] == t[j]
    ensures if i <= j then t[j - i..] == s else s[i - j..] == t
    decreases i
  {
    if i == 0 {
      ChainTail(f, t, j);
      ChainIsUnique(f, s, t[j..]);
    } else if j == 0 {
      ChainTail(f, s, i);
      ChainIsUnique(f, s[i..], t);
    } else {
      assert Follows(f, s, i - 1) && Follows(f, t, j - 1) && Follows(f, s, i);
      assert s[i - 1] == t[j - 1];
      ChainsMeet(f, s, t, i - 1, j - 1);
    }
  }

  // ----- taking a free cluster

  lemma ChainIsUsed(f: seq<nat>, s: seq<nat>, i: nat)
    requires IsChain(f, s) && i < |s|
    ensures IsCluster(f, s[i]) && f[s[i]] != 0
  {
    assert Follows(f, s, i);
    if i < |s| - 1 {
      assert Follows(f, s, i + 1);
    }
  }

  // A chain depends on the entries of its own clusters only.
  lemma ChainKept(f: seq<nat>, g: seq<nat>, s: seq<nat>)
    requires IsChain(f, s) && |f| == |g|
    requires forall i :: 0 <= i < |s| && IsCluster(f, s[i]) ==> g[s[i]] == f[s[i]]
    ensures IsChain(g, s)
  {
    forall i | 0 <= i < |s|
      ensures Follows(g, s, i)
    {
      assert Follows(f, s, i);
    }
  }

  lemma NoLinkToFree(f: seq<nat>, n: nat)
    requires WellFormed(f) && IsCluster(f, n) && f[n] == 0
    ensures IsHead(f, n)
  {
    forall c | IsCluster(f, c)
      ensures f[c] != n
    {
      if f[c] == n {
        assert HasChain(f, c);
        var s :| IsChain(f, s) && s[0] == c;
        assert Follows(f, s, 0);
        ChainIsUsed(f, s, 1);
      }
    }
  }

  lemma ChainsAfterMark(f: seq<nat>, n: nat, mark: nat, s: seq<nat>)
    requires IsHead(f, n) && IsCluster(f, n) && f[n] == 0 && mark >= |f|
    ensures IsChain(f[n := mark], s) <==> IsChain(f, s) || s == [n]
  {
    var g := f[n := mark];
    assert Follows(g, [n], 0);
    if IsChain(f, s) {
      forall i | 0 <= i < |s|
        ensures s[i] != n
      {
        ChainIsUsed(f, s, i);
      }
      ChainKept(f, g, s);
    }
    if IsChain(g, s) && s != [n] {
      forall i | 0 <= i < |s|
        ensures s[i] != n
      {
        assert Follows(g, s, i);
        if i > 0 {
          assert Follows(g, s, i - 1);
        } else if |s| > 1 {
          assert Follows(g, s, 1);
        }
      }
      ChainKept(g, f, s);
    }
  }

  // Marking a free cluster as the end of a chain adds exactly one chain, of that cluster alone.
  lemma MarkAddsOne(f: seq<nat>, n: nat, mark: nat)
    requires WellFormed(f) && IsCluster(f, n) && f[n] == 0 && mark >= |f|
    ensures WellFormed(f[n := mark])
    ensures IsHead(f[n := mark], n)
    ensures forall s :: IsChain(f[n := mark], s) <==> IsChain(f, s) || s == [n]
  {
    var g := f[n := mark];
    NoLinkToFree(f, n);
    forall s
      ensures IsChain(g, s) <==> IsChain(f, s) || s == [n]
    {
      ChainsAfterMark(f, n, mark, s);
    }
    forall c | IsCluster(g, c) && g[c] != 0
      ensures HasChain(g, c)
    {
      if c == n {
        assert IsChain(g, [n]);
      } else {
        assert HasChain(f, c);
      }
    }
  }

  // The chain s, with n added when it ends in c.
  ghost function Extended(s: seq<nat>, c: nat, n: nat): seq<nat>
    requires s != []
  {
    if s[|s| - 1] == c then s + [n] else s
  }

  // t is a chain of f, or one that ended in c with n added.
  ghost predicate ExtendsOne(f: seq<nat>, t: seq<nat>, c: nat, n: nat) {
    exists s :: IsChain(f, s) && t == Extended(s, c, n)
  }

  // Linking the end of a chain to a lone cluster extends every chain that ends there by that
  // cluster, and changes no other chain.
  lemma LinkExtends(f: seq<nat>, c: nat, n: nat, s: seq<nat>)
    requires IsCluster(f, c) && IsCluster(f, n) && c != n && f[c] >= |f| && f[n] >= |f|
    requires IsChain(f, s)
    ensures IsChain(f[c := n], Extended(s, c, n))
  {
    var g, t := f[c := n], Extended(s, c, n);
    forall i | 0 <= i < |t|
      ensures Follows(g, t, i)
    {
      if i < |s| {
        assert Follows(f, s, i);
        if i < |s| - 1 {
          assert Follows(f, s, i + 1);
        }
      }
    }
  }

  lemma LinkKeepsWellFormed(f: seq<nat>, c: nat, n: nat)
    requires WellFormed(f) && IsCluster(f, c) && IsCluster(f, n) && c != n && f[c] >= |f| && f[n] >= |f|
    requires IsHead(f, n)
    ensures WellFormed(f[c := n])
    ensures forall s :: IsChain(f, s) ==> IsChain(f[c := n], Extended(s, c, n))
    ensures forall t :: IsChain(f[c := n], t) ==> ExtendsOne(f, t, c, n)
  {
    var g := f[c := n];
    forall s | IsChain(f, s)
      ensures IsChain(g, Extended(s, c, n))
    {
      LinkExtends(f, c, n, s);
    }
    forall t | IsChain(g, t)
      ensures ExtendsOne(f, t, c, n)
    {
      ChainIsUsed(g, t, 0);
      assert HasChain(f, t[0]);
      var s :| IsChain(f, s) && s[0] == t[0];
      ChainIsUnique(g, t, Extended(s, c, n));
    }
    forall d | IsCluster(g, d) && g[d] != 0
      ensures HasChain(g, d)
    {
      assert IsCluster(f, d) && f[d] != 0;
      assert HasChain(f, d);
      var s :| IsChain(f, s) && s[0] == d;
      LinkExtends(f, c, n, s);
      assert Extended(s, c, n)[0] == d;
    }
    forall d, e | IsCluster(g, d) && IsCluster(g, e) && d != e && IsCluster(g, g[d])
      ensures g[d] != g[e]
    {
      assert IsCluster(f, d) && IsCluster(f, e);
    }
  }

  // ----- freeing the clusters of a chain

  // The table with the clusters of s freed.
  function Freed(f: seq<nat>, s: seq<nat>): (g: seq<nat>)
    ensures |g| == |f|
  {
    seq(|f|, c requires 0 <= c < |f| => if c in s then 0 else f[c])
  }

  lemma FreedOne(f: seq<nat>, s: seq<nat>)
    requires s != [] && s[0] < |f|
    ensures Freed(f[s[0] := 0], s[1..]) == Freed(f, s)
  {
    assert s == [s[0]] + s[1..];
    var g, h := Freed(f[s[0] := 0], s[1..]), Freed(f, s);
    forall c | 0 <= c < |f|
      ensures g[c] == h[c]
    {
    }
  }

  lemma PredecessorIsOutside(f: seq<nat>, s: seq<nat>, d: nat)
    requires IsChain(f, s) && IsCluster(f, d) && f[d] == s[0]
    ensures d !in s
  {
    if d in s {
      var i :| 0 <= i < |s| && s[i] == d;
      assert Follows(f, s, i) && Follows(f, s, 0);
      if i < |s| - 1 {
        ChainIsDistinct(f, s, 0, i + 1);
      }
    }
  }

  lemma OutsideStaysOutside(f: seq<nat>, s: seq<nat>, t: seq<nat>, j: nat)
    requires WellFormed(f) && IsChain(f, s) && IsChain(f, t) && IsHead(f, s[0]) && t[0] !in s && j < |t|
    ensures t[j] !in s
  {
    if t[j] in s {
      var i :| 0 <= i < |s| && s[i] == t[j];
      assert i < j ==> Follows(f, t, j - i - 1);
      assert i > j ==> s[i - j] in s;
      assert i <= j ==> t[j - i..][0] == t[j - i];
      assert i > j ==> s[i - j..][0] == s[i - j];
      ChainsMeet(f, s, t, i, j);
    }
  }

  // Freeing a whole chain that no other cluster links to keeps the table well formed, and every
  // chain outside it.
  lemma FreeingKeepsOthers(f: seq<nat>, s: seq<nat>)
    requires WellFormed(f) && IsChain(f, s) && IsHead(f, s[0])
    ensures WellFormed(Freed(f, s))
    ensures forall t :: IsChain(f, t) && t[0] !in s ==> IsChain(Freed(f, s), t)
  {
    var g := Freed(f, s);
    forall t | IsChain(f, t) && t[0] !in s
      ensures IsChain(g, t)
    {
      forall j | 0 <= j < |t|
        ensures t[j] !in s
      {
        OutsideStaysOutside(f, s, t, j);
      }
      ChainKept(f, g, t);
    }
    forall c | IsCluster(g, c) && g[c] != 0
      ensures HasChain(g, c)
    {
      assert IsCluster(f, c) && c !in s;
      assert HasChain(f, c);
      var t :| IsChain(f, t) && t[0] == c;
      assert IsChain(g, t);
    }
    forall d, e | IsCluster(g, d) && IsCluster(g, e) && d != e && IsCluster(g, g[d])
      ensures g[d] != g[e]
    {
      assert IsCluster(f, d) && IsCluster(f, e);
    }
  }

  // Freeing a chain leaves a well-formed table exactly when no other cluster links into it.
  lemma FreeingKeepsWellFormed(f: seq<nat>, s: seq<nat>)
    requires WellFormed(f) && IsChain(f, s)
    ensures WellFormed(Freed(f, s)) <==> IsHead(f, s[0])
  {
    var g := Freed(f, s);
    if IsHead(f, s[0]) {
      FreeingKeepsOthers(f, s);
    } else {
      var d :| IsCluster(f, d) && f[d] == s[0];
      PredecessorIsOutside(f, s, d);
      assert Follows(f, s, 0);
      if WellFormed(g) {
        assert IsCluster(g, d) && g[d] == s[0];
        assert HasChain(g, d);
        var t :| IsChain(g, t) && t[0] == d;
        assert Follows(g, t, 0);
        ChainIsUsed(g, t, 1);
      }
    }
  }

  // ----- counting

  // The number of free entries from index lo on.
  function FreeFrom(f: seq<nat>, lo: nat): (n: nat)
    decreases |f| - lo
    ensures lo <= |f| ==> n <= |f| - lo
  {
    if lo >= |f| then 0 else (if f[lo] == 0 then 1 else 0) + FreeFrom(f, lo + 1)
  }

  // The number of free clusters, what free_clust stands for.
  function FreeCount(f: seq<nat>): nat {
    FreeFrom(f, 2)
  }

  lemma {:induction false} FreeFromOfUpdate(f: seq<nat>, lo: nat, c: nat, val: nat)
    requires c < |f|
    ensures FreeFrom(f[c := val], lo) ==
      FreeFrom(f, lo) + if lo <= c then (if val == 0 then 1 else 0) - (if f[c] == 0 then 1 else 0) else 0
    decreases |f| - lo
  {
    if lo < |f| {
      FreeFromOfUpdate(f, lo + 1, c, val);
    }
  }

  lemma NextIsChain(f: seq<nat>, s: seq<nat>)
    requires IsChain(f, s) && |s| > 1 && s[0] < |f|
    ensures IsChain(f[s[0] := 0], s[1..]) && s[1] == f[s[0]] >= 2
  {
    assert Follows(f, s, 0) && Follows(f, s, 1);
    ChainTail(f, s, 1);
    forall i | 0 <= i < |s| - 1
      ensures s[1..][i] != s[0]
    {
      ChainIsDistinct(f, s, 0, i + 1);
    }
    ChainKept(f, f[s[0] := 0], s[1..]);
  }

  // Freeing a chain frees as many clusters as it has.
  lemma {:induction false} FreeCountOfFreed(f: seq<nat>, s: seq<nat>)
    requires IsChain(f, s)
    ensures FreeCount(Freed(f, s)) == FreeCount(f) + |s|
    decreases |s|
  {
    hide FreeFrom, Follows;
    ChainIsUsed(f, s, 0);
    FreeFromOfUpdate(f, 2, s[0], 0);
    FreedOne(f, s);
    if |s| == 1 {
      assert Freed(f[s[0] := 0], s[1..]) == f[s[0] := 0];
    } else {
      NextIsChain(f, s);
      FreeCountOfFreed(f[s[0] := 0], s[1..]);
    }
  }

  ghost function UsedSet(f: seq<nat>): set<int> {
    set c | 2 <= c < |f| && f[c] != 0
  }

  lemma UsedShrinks(f: seq<nat>, c: nat)
    requires IsCluster(f, c) && f[c] != 0
    ensures UsedSet(f[c := 0]) < UsedSet(f)
  {
    assert c in UsedSet(f) && c !in UsedSet(f[c := 0]);
  }

  // ----- remove_chain on the table

  // How remove_chain ends: at the end of the chain or at a free cluster, or at an entry that is 1.
  datatype Walked = Walked(f: seq<nat>, ok: bool)

  // What remove_chain does to the table from cluster c on. It ends on every table, even one with
  // cycles: each step turns a used entry into a free one.
  ghost function Walk(f: seq<nat>, c: nat): (w: Walked)
    requires c >= 2
    ensures |w.f| == |f|
    decreases UsedSet(f)
  {
    if !IsCluster(f, c) || f[c] == 0 then Walked(f, true)
    else if f[c] == 1 then Walked(f, false)
    else
      UsedShrinks(f, c);
      Walk(f[c := 0], f[c])
  }

  // On a chain the walk frees exactly the clusters of the chain.
  lemma {:induction false} WalkFreesChain(f: seq<nat>, s: seq<nat>)
    requires IsChain(f, s)
    ensures s[0] >= 2 && Walk(f, s[0]) == Walked(Freed(f, s), true)
    decreases |s|
  {
    assert Follows(f, s, 0);
    var g := f[s[0] := 0];
    FreedOne(f, s);
    if |s| == 1 {
      assert Freed(g, s[1..]) == g;
    } else {
      assert Follows(f, s, 1);
      ChainTail(f, s, 1);
      forall i | 0 <= i < |s| - 1
        ensures s[1..][i] != s[0]
      {
        ChainIsDistinct(f, s, 0, i + 1);
      }
      ChainKept(f, g, s[1..]);
      WalkFreesChain(g, s[1..]);
    }
  }
}
