// What a space does between env_setup_vm and env_free, and that it gives everything back.
module Reclaiming {
  import opened Words
  import opened PageList
  import opened PageTables
  import opened Paging
  import opened PageOuts
  import opened Spaces

  // What is done to one space, and page_alloc by those who do it.
  datatype Act =
    | Take
    | Insert(va: u32, page: int, perm: nat)
    | Remove(va: u32)
    | PageOut(va: u32)

  // What the operations demand of their callers: addresses below UENVS, pages that are not free, with
  // a count that does not overflow. pageout also needs a page, unless the table is missing anyway.
  ghost predicate Permitted(m: Mem, b: Book, d: int, a: Act)
    requires Inv(m, b)
  {
    d in b.dirs &&
    match a
    case Take => true
    case Insert(va, p, perm) => Pdx(va) < OWNPDX && perm < BY2PG && IsPage(p) && p !in b.free && m.pages[p].ref < 0xFFFF
    case Remove(va) => Pdx(va) < OWNPDX
    case PageOut(va) => Pdx(va) < OWNPDX && !MapsNull(b, d, va)
  }

  ghost predicate Does(m: Mem, b: Book, n: Mem, c: Book, d: int, a: Act) {
    && Inv(m, b) && Permitted(m, b, d, a) && Inv(n, c)
    && match a
       case Take => if b.free == [] then n == m && c == b else n == Allocated(m) && c == b.(free := b.free[1..])
       case Insert(va, p, perm) => c == Mapped(m, b, d, va, p)
       case Remove(va) => c == Unmapped(m, b, d, va)
       case PageOut(va) => PagedOut(m, b, n, c, d, va, 0)
  }

  method Perform(mm: Memory, d: int, a: Act)
    requires mm.Valid() && Permitted(mm.Now(), mm.book, d, a)
    modifies mm, mm.pages, mm.frames
    ensures mm.Valid() && Does(old(mm.Now()), old(mm.book), mm.Now(), mm.book, d, a)
  {
    hide Inv, PagedOut;
    match a {
      case Take =>
        var ok, p := PageAlloc(mm);
      case Insert(va, p, perm) =>
        var ok := PageInsert(mm, d, p, va, perm);
      case Remove(va) =>
        PageRemove(mm, d, va);
      case PageOut(va) =>
        var pa := PageOuts.PageOut(mm, d, va, 0);
    }
  }

  // ----- what an act leaves alone

  // The other spaces, the directories and the holds are as they were.
  ghost predicate SameElsewhere(b: Book, c: Book, d: int) {
    c.dirs == b.dirs && c.pins == b.pins && Others(c.entries, d) == Others(b.entries, d)
  }

  lemma SameOthers(e: map<Slot, int>, f: map<Slot, int>, d: int)
    requires forall s :: SpaceOf(s) != d ==> Agree(e, f, s)
    ensures Others(e, d) == Others(f, d)
  {
    forall s
      ensures s in Others(e, d) <==> s in Others(f, d)
    {
      assert SpaceOf(s) != d ==> Agree(e, f, s);
    }
  }

  lemma MappedStaysIn(m: Mem, b: Book, d: int, va: u32, p: int)
    ensures SameElsewhere(b, Mapped(m, b, d, va, p), d)
  {
    var e, f := b.entries, Mapped(m, b, d, va, p).entries;
    forall s | SpaceOf(s) != d
      ensures Agree(e, f, s)
    {
    }
    SameOthers(e, f, d);
  }

  lemma UnmappedStaysIn(m: Mem, b: Book, d: int, va: u32)
    ensures SameElsewhere(b, Unmapped(m, b, d, va), d)
  {
    var e, f := b.entries, Unmapped(m, b, d, va).entries;
    forall s | SpaceOf(s) != d
      ensures Agree(e, f, s)
    {
    }
    SameOthers(e, f, d);
  }

  lemma ActStaysIn(m: Mem, b: Book, n: Mem, c: Book, d: int, a: Act)
    requires Does(m, b, n, c, d, a)
    ensures SameElsewhere(b, c, d)
  {
    hide Inv, Mapped, Unmapped, Others;
    match a {
      case Take =>
      case Insert(va, p, perm) => MappedStaysIn(m, b, d, va, p);
      case Remove(va) => UnmappedStaysIn(m, b, d, va);
      case PageOut(va) =>
        if b.free != [] {
          MappedStaysIn(Allocated(m), b.(free := b.free[1..]), d, va, b.free[0]);
        }
    }
  }

  // ----- what an act loses

  // Whether page q has no reference and is not free after act a, when was says so of before: a page
  // that page_alloc hands out, or that pageout takes without a page left for the table, until
  // page_insert maps it.
  ghost predicate IsAstray(was: bool, b: Book, d: int, a: Act, q: int) {
    match a
    case Take => was || (b.free != [] && q == b.free[0])
    case Insert(va, p, perm) => was && !(HasRoom(b, d, va) && q == p)
    case Remove(va) => was
    case PageOut(va) => was || (b.free != [] && !CanPageOut(b, d, va) && q == b.free[0])
  }

  lemma ActLoses(m: Mem, b: Book, n: Mem, c: Book, d: int, a: Act, q: int)
    requires Does(m, b, n, c, d, a)
    ensures IsLost(n, c, q) <==> IsAstray(IsLost(m, b, q), b, d, a, q)
  {
    hide Inv, Mapped, Unmapped, IsLost, IsUnheld;
    LostIsUnheld(m, b, q);
    LostIsUnheld(n, c, q);
    match a {
      case Take =>
        if b.free != [] {
          AllocLosesFirst(m, b, q);
        }
      case Insert(va, p, perm) => InsertLosesNothing(m, b, d, va, p, q);
      case Remove(va) => UnmapLosesNothing(m, b, d, va, q);
      case PageOut(va) =>
        if b.free != [] {
          MapsOrLoses(m, b, n, c, d, va, 0);
        }
    }
  }

  // An act loses no page exactly when it is not a page_alloc that succeeds, nor a pageout that takes
  // the last free page while the table for its address is missing.
  predicate LosesNothing(b: Book, d: int, a: Act) {
    match a
    case Take => b.free == []
    case PageOut(va) => |b.free| != 1 || InDir(d, Pdx(va)) in b.entries
    case _ => true
  }

  // Every page that is lost afterwards was lost before.
  ghost predicate NoneLost(m: Mem, b: Book, n: Mem, c: Book) {
    forall q :: IsLost(n, c, q) ==> IsLost(m, b, q)
  }

  lemma LossIsExact(m: Mem, b: Book, n: Mem, c: Book, d: int, a: Act)
    requires Does(m, b, n, c, d, a)
    ensures NoneLost(m, b, n, c) <==> LosesNothing(b, d, a)
  {
    hide Inv, Mapped, Unmapped, Does;
    forall q
      ensures IsLost(n, c, q) <==> IsAstray(IsLost(m, b, q), b, d, a, q)
    {
      ActLoses(m, b, n, c, d, a, q);
    }
    if b.free != [] {
      assert !IsLost(m, b, b.free[0]);
      assert IsLost(n, c, b.free[0]) <==> IsAstray(false, b, d, a, b.free[0]);
    }
  }

  // ----- runs

  // A run on space d: each state follows from the one before by the act.
  ghost predicate IsRun(ms: seq<Mem>, bs: seq<Book>, acts: seq<Act>, d: int) {
    && |ms| == |bs| == |acts| + 1 && Inv(ms[0], bs[0])
    && forall i :: 0 <= i < |acts| ==> Does(ms[i], bs[i], ms[i + 1], bs[i + 1], d, acts[i])
  }

  lemma {:induction false} RunStaysIn(ms: seq<Mem>, bs: seq<Book>, acts: seq<Act>, d: int, k: nat)
    requires IsRun(ms, bs, acts, d) && k <= |acts|
    ensures Inv(ms[k], bs[k]) && SameElsewhere(bs[0], bs[k], d)
  {
    hide Inv, Others;
    if k > 0 {
      RunStaysIn(ms, bs, acts, d, k - 1);
      ActStaysIn(ms[k - 1], bs[k - 1], ms[k], bs[k], d, acts[k - 1]);
    }
  }

  // Whether page q is astray after the first k acts.
  ghost predicate AstrayAfter(was: bool, bs: seq<Book>, acts: seq<Act>, d: int, k: nat, q: int)
    requires k <= |acts| <= |bs|
  {
    if k == 0 then was else IsAstray(AstrayAfter(was, bs, acts, d, k - 1, q), bs[k - 1], d, acts[k - 1], q)
  }

  lemma {:induction false} RunLoses(ms: seq<Mem>, bs: seq<Book>, acts: seq<Act>, d: int, k: nat, q: int)
    requires IsRun(ms, bs, acts, d) && k <= |acts|
    ensures IsLost(ms[k], bs[k], q) <==> AstrayAfter(IsLost(ms[0], bs[0], q), bs, acts, d, k, q)
  {
    hide Inv, IsLost, IsAstray;
    if k > 0 {
      RunLoses(ms, bs, acts, d, k - 1, q);
      ActLoses(ms[k - 1], bs[k - 1], ms[k], bs[k], d, acts[k - 1], q);
    }
  }

  ghost predicate NoneLostAt(ms: seq<Mem>, bs: seq<Book>, i: nat)
    requires i + 1 < |ms| == |bs|
  {
    NoneLost(ms[i], bs[i], ms[i + 1], bs[i + 1])
  }

  // Over a run no act loses a page exactly when none is a page_alloc that succeeds or a pageout that
  // takes the last free page for an address without a table.
  lemma RunLossIsExact(ms: seq<Mem>, bs: seq<Book>, acts: seq<Act>, d: int)
    requires IsRun(ms, bs, acts, d)
    ensures (forall i :: 0 <= i < |acts| ==> NoneLostAt(ms, bs, i))
      <==> forall i :: 0 <= i < |acts| ==> LosesNothing(bs[i], d, acts[i])
  {
    hide Inv, NoneLost, Does, LosesNothing;
    forall i | 0 <= i < |acts|
      ensures NoneLostAt(ms, bs, i) <==> LosesNothing(bs[i], d, acts[i])
    {
      LossIsExact(ms[i], bs[i], ms[i + 1], bs[i + 1], d, acts[i]);
    }
    assert forall i :: 0 <= i < |acts| && NoneLostAt(ms, bs, i) ==> LosesNothing(bs[i], d, acts[i]);
  }

  // ----- reclamation

  // The life of space d: a page becomes its directory, a run of acts works on it, and env_free takes
  // it apart.
  ghost predicate IsLife(m: Mem, b: Book, ms: seq<Mem>, bs: seq<Book>, acts: seq<Act>, d: int, n: Mem, c: Book) {
    && Inv(m, b) && b.free != [] && d == b.free[0]
    && IsRun(ms, bs, acts, d) && bs[0] == BookWithDir(b.(free := b.free[1..]), d)
    && SpaceFreed(ms[|acts|], bs[|acts|], n, c, d)
  }

  // Becoming a directory loses no page.
  lemma SetupLosesNothing(m: Mem, b: Book, n: Mem, d: int, q: int)
    requires Inv(m, b) && b.free != [] && d == b.free[0] && Inv(n, BookWithDir(b.(free := b.free[1..]), d))
    ensures IsLost(n, BookWithDir(b.(free := b.free[1..]), d), q) <==> IsLost(m, b, q)
  {
    hide Inv, IsLost;
    LostIsUnheld(m, b, q);
    LostIsUnheld(n, BookWithDir(b.(free := b.free[1..]), d), q);
    AllocLosesFirst(m, b, q);
    FreeIsUnused(m, b, d);
    PinsCover(m, b);
  }

  lemma PinsCover(m: Mem, b: Book)
    requires Inv(m, b)
    ensures |b.pins| == NPAGE
  {
  }

  // A page that is no directory has no entries as one.
  lemma NoSlots(m: Mem, b: Book, d: int)
    requires Inv(m, b) && d !in b.dirs
    ensures Others(b.entries, d) == b.entries
  {
    forall s | s in b.entries
      ensures SpaceOf(s) != d
    {
      SlotInRange(m, b, s);
    }
  }

  // How often the space maps page p at or above UTOP when it is freed.
  ghost function Kept(bs: seq<Book>, d: int, p: int): nat
    requires bs != []
  {
    Count(Heap(bs[|bs| - 1].entries, d), p)
  }

  // A space gives back what it has mapped below UTOP: the other spaces map what they mapped; the
  // count of a page is what it was before plus one for every entry at or above UTOP that names it;
  // and of the pages without a reference exactly those are free that no act has left astray.
  lemma SpaceIsReclaimed(m: Mem, b: Book, ms: seq<Mem>, bs: seq<Book>, acts: seq<Act>, d: int, n: Mem, c: Book)
    requires IsLife(m, b, ms, bs, acts, d, n, c)
    ensures c.entries == b.entries && c.dirs == b.dirs
    ensures forall p :: IsPage(p) ==> n.pages[p].ref == m.pages[p].ref + Kept(bs, d, p)
    ensures forall p :: p in c.free <==>
      (p in b.free || IsLost(m, b, p)) && Kept(bs, d, p) == 0 && !AstrayAfter(IsLost(m, b, p), bs, acts, d, |acts|, p)
  {
    hide TablesOk, Linked, Does;
    FreeIsUnused(m, b, d);
    FirstIsFree(m, b);
    RunStaysIn(ms, bs, acts, d, |acts|);
    NoSlots(m, b, d);
    assert c.entries == b.entries;
    forall p | IsPage(p)
      ensures n.pages[p].ref == m.pages[p].ref + Kept(bs, d, p)
    {
      assert RefOk(m, b, p) && RefOk(n, c, p);
    }
    forall p
      ensures p in c.free <==>
        (p in b.free || IsLost(m, b, p)) && Kept(bs, d, p) == 0 && !AstrayAfter(IsLost(m, b, p), bs, acts, d, |acts|, p)
    {
      assert p in c.free ==> IsFree(n, p);
      assert p in b.free ==> IsFree(m, p);
      SetupLosesNothing(m, b, ms[0], d, p);
      RunLoses(ms, bs, acts, d, |acts|, p);
      assert IsLost(ms[|acts|], bs[|acts|], p) <==> IsLost(n, c, p);
    }
  }

  // Page p is as free after a run as before it: when it was free, the space does not map it at or
  // above UTOP and no act has left it astray; when it was held without a reference, it still is, or
  // the space maps it there.
  ghost predicate IsRestored(m: Mem, b: Book, bs: seq<Book>, acts: seq<Act>, d: int, p: int)
    requires |acts| <= |bs| && bs != []
  {
    && (p in b.free ==> Kept(bs, d, p) == 0 && !AstrayAfter(false, bs, acts, d, |acts|, p))
    && (IsLost(m, b, p) ==> Kept(bs, d, p) > 0 || AstrayAfter(true, bs, acts, d, |acts|, p))
  }

  // The free list has exactly the pages it had before the space was set up if and only if every page
  // that page_alloc or pageout has taken on the way has been mapped since, not above UTOP, and no
  // page that somebody held without a reference before has been mapped below it.
  lemma FreeListIsRestored(m: Mem, b: Book, ms: seq<Mem>, bs: seq<Book>, acts: seq<Act>, d: int, n: Mem, c: Book)
    requires IsLife(m, b, ms, bs, acts, d, n, c)
    ensures multiset(c.free) == multiset(b.free) <==> forall p :: IsRestored(m, b, bs, acts, d, p)
  {
    hide Does, IsLost, Inv, Kept;
    SpaceIsReclaimed(m, b, ms, bs, acts, d, n, c);
    FreeIsDistinct(m, b);
    FreeIsDistinct(n, c);
    forall p
      ensures multiset(c.free)[p] == multiset(b.free)[p] <==> IsRestored(m, b, bs, acts, d, p)
    {
      OnceOrNever(b.free, p);
      OnceOrNever(c.free, p);
      FreeOrLost(m, b, p);
    }
  }

  lemma FreeOrLost(m: Mem, b: Book, p: int)
    ensures !(p in b.free && IsLost(m, b, p))
  {
  }

  // The address of an act lies below UTOP.
  predicate IsBelow(a: Act) {
    match a
    case Take => true
    case Insert(va, _, _) => Pdx(va) < UPDX
    case Remove(va) => Pdx(va) < UPDX
    case PageOut(va) => Pdx(va) < UPDX
  }

  lemma MappedBelow(m: Mem, b: Book, d: int, va: u32, p: int)
    requires Pdx(va) < UPDX
    ensures Heap(Mapped(m, b, d, va, p).entries, d) == Heap(b.entries, d)
    ensures Heap(Unmapped(m, b, d, va).entries, d) == Heap(b.entries, d)
  {
  }

  lemma ActBelow(m: Mem, b: Book, n: Mem, c: Book, d: int, a: Act)
    requires Does(m, b, n, c, d, a) && IsBelow(a)
    ensures Heap(c.entries, d) == Heap(b.entries, d)
  {
    hide Inv, Mapped, Unmapped, Heap;
    match a {
      case Take =>
      case Insert(va, p, _) => MappedBelow(m, b, d, va, p);
      case Remove(va) => MappedBelow(m, b, d, va, 0);
      case PageOut(va) =>
        if b.free != [] {
          MappedBelow(Allocated(m), b.(free := b.free[1..]), d, va, b.free[0]);
        }
    }
  }

  lemma {:induction false} RunBelow(ms: seq<Mem>, bs: seq<Book>, acts: seq<Act>, d: int, k: nat)
    requires IsRun(ms, bs, acts, d) && k <= |acts| && forall i :: 0 <= i < |acts| ==> IsBelow(acts[i])
    ensures Heap(bs[k].entries, d) == Heap(bs[0].entries, d)
  {
    hide Does, Heap, Inv;
    if k > 0 {
      RunBelow(ms, bs, acts, d, k - 1);
      ActBelow(ms[k - 1], bs[k - 1], ms[k], bs[k], d, acts[k - 1]);
    }
  }

  // A space that is changed only below UTOP keeps nothing: every count is what it was.
  lemma NothingIsKept(m: Mem, b: Book, ms: seq<Mem>, bs: seq<Book>, acts: seq<Act>, d: int, n: Mem, c: Book, p: int)
    requires IsLife(m, b, ms, bs, acts, d, n, c) && forall i :: 0 <= i < |acts| ==> IsBelow(acts[i])
    ensures Kept(bs, d, p) == 0
  {
    hide Does, Inv, SpaceFreed;
    FreeIsUnused(m, b, d);
    NoSlots(m, b, d);
    RunBelow(ms, bs, acts, d, |acts|);
    assert Heap(b.entries, d) == map[] by {
      assert forall s :: s in b.entries ==> s in Others(b.entries, d);
    }
    assert Naming(map[], p) == {};
  }

  // So the free list is as before when page_insert, page_remove and pageout below UTOP are all that
  // is done, every pageout has a second page or a table for its address, and nobody held a page
  // without a reference before.
  lemma NothingIsLost(m: Mem, b: Book, ms: seq<Mem>, bs: seq<Book>, acts: seq<Act>, d: int, n: Mem, c: Book)
    requires IsLife(m, b, ms, bs, acts, d, n, c)
    requires forall i :: 0 <= i < |acts| ==> IsBelow(acts[i]) && LosesNothing(bs[i], d, acts[i])
    requires forall p :: !IsLost(m, b, p)
    ensures multiset(c.free) == multiset(b.free)
  {
    hide Does, IsLost, LosesNothing, Inv, Kept, IsBelow;
    FreeListIsRestored(m, b, ms, bs, acts, d, n, c);
    forall p
      ensures IsRestored(m, b, bs, acts, d, p)
    {
      NothingIsKept(m, b, ms, bs, acts, d, n, c, p);
      NoneAstray(bs, acts, d, |acts|, p);
    }
  }

  predicate IsDistinct(s: seq<int>) {
    forall i, j :: 0 <= i < j < |s| ==> s[i] != s[j]
  }

  lemma FreeIsDistinct(m: Mem, b: Book)
    requires Inv(m, b)
    ensures IsDistinct(b.free)
  {
    hide TablesOk;
  }

  lemma {:induction false} OnceOrNever(s: seq<int>, x: int)
    requires IsDistinct(s)
    ensures multiset(s)[x] == if x in s then 1 else 0
  {
    if s != [] {
      assert s == [s[0]] + s[1..];
      OnceOrNever(s[1..], x);
    }
  }

  lemma {:induction false} NoneAstray(bs: seq<Book>, acts: seq<Act>, d: int, k: nat, q: int)
    requires k <= |acts| <= |bs| && forall i :: 0 <= i < |acts| ==> LosesNothing(bs[i], d, acts[i])
    ensures !AstrayAfter(false, bs, acts, d, k, q)
  {
    if k > 0 {
      NoneAstray(bs, acts, d, k - 1, q);
      assert LosesNothing(bs[k - 1], d, acts[k - 1]);
    }
  }
}
