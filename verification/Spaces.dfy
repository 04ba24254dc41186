// Address spaces: env_setup_vm, the memory part of env_free, and that a space gives everything back.
module Spaces {
  import opened Words
  import opened PageList
  import opened PageTables
  import opened Paging
  import opened PageOuts

  const VPT_PDX := 513     // PDX(VPT)
  const UVPT_PDX := 511    // PDX(UVPT)

  // ----- a new directory

  function BookWithDir(b: Book, d: int): Book {
    if 0 <= d < |b.pins| then b.(dirs := b.dirs + {d}, pins := b.pins[d := b.pins[d] + 1]) else b
  }

  // A page that nobody uses becomes a directory without user entries.
  lemma NewDirKeepsInv(m: Mem, b: Book, n: Mem, d: int)
    requires Inv(m, b) && IsPage(d) && d !in b.dirs && d !in b.free && m.pages[d].ref == 0
    requires forall s :: s in b.entries ==> b.entries[s] != d
    requires n == Referred(m, d).(frames := n.frames) && |n.frames| == NPAGE
    requires forall q :: IsPage(q) && q != d ==> n.frames[q] == m.frames[q]
    requires forall i :: 0 <= i < OWNPDX ==> !IsValid(n.frames[d][i])
    ensures Inv(n, BookWithDir(b, d))
  {
    hide Linked;
    var c := BookWithDir(b, d);
    RefKeepsCounts(m, b, n, c, d);
    OtherFrame(m, b, n, d);
    forall s | s in c.entries
      ensures SlotOk(c, s)
    {
      assert SlotOk(b, s);
    }
    forall s, t | s in c.entries && t in c.entries
      ensures OneTable(c, s, t)
    {
      assert OneTable(b, s, t);
    }
    forall e, i | e in c.dirs && 0 <= i < OWNPDX
      ensures DirOk(n, c, e, i)
    {
      if e == d {
        assert InDir(d, i) in b.entries ==> SlotOk(b, InDir(d, i));
      } else {
        assert DirOk(n, b, e, i);
      }
    }
    forall e, i, j | InDir(e, i) in c.entries && 0 <= j < PTE2PT
      ensures TableOk(n, c, e, i, j)
    {
      assert SlotOk(b, InDir(e, i)) && TableOk(n, b, e, i, j);
    }
  }

  // The directory of a new space: nothing below UTOP, the kernel's part above, and the two entries
  // through which the space sees its own tables.
  predicate IsNewDir(f: Frame, boot: Frame, d: int) {
    forall i :: 0 <= i < PTE2PT ==>
      f[i] == if i < 508 then 0
              else if i == 513 then d * 0x1000 + 0x200
              else if i == 511 then d * 0x1000 + 0x600
              else boot[i]
  }

  // env_setup_vm: a new space, whose directory is page d; false when there is no page. Between UTOP
  // and UENVS the kernel maps nothing.
  method SetupVm(mm: Memory, boot: Frame) returns (ok: bool, d: int)
    requires mm.Valid() && !IsValid(boot[UPDX])
    modifies mm, mm.pages, mm.frames
    ensures mm.Valid() && ok == (old(mm.book.free) != [])
    ensures !ok ==> mm.Now() == old(mm.Now()) && mm.book == old(mm.book)
    ensures ok ==>
      && IsPage(d) && d == old(mm.book.free[0]) && d !in old(mm.book.dirs)
      && mm.book == BookWithDir(old(mm.book).(free := old(mm.book.free[1..])), d)
      && IsNewDir(mm.frames[d], boot, d)
      && forall q :: IsPage(q) && q != d ==> mm.frames[q] == old(mm.frames[q])
  {
    hide TablesOk, RefOk, Linked;
    ghost var m, b := mm.Now(), mm.book;
    ok, d := PageAlloc(mm);
    if !ok {
      return;
    }
    AllocKeepsInv(m, b);
    FreeIsUnused(m, b, d);
    ListKeepsRefs(m.pages, m.first, d, d);
    ghost var n, c := mm.Now(), mm.book;
    mm.pages[d] := mm.pages[d].(ref := (mm.pages[d].ref + 1) % 0x1_0000);
    FillDir(mm, boot, d);
    assert mm.pages[..] == Referred(n, d).pages;
    NewDirKeepsInv(n, c, mm.Now(), d);
    mm.book := BookWithDir(c, d);
  }

  method FillDir(mm: Memory, boot: Frame, d: int)
    requires mm.frames.Length == NPAGE && IsPage(d)
    modifies mm.frames
    ensures IsNewDir(mm.frames[d], boot, d)
    ensures forall q :: IsPage(q) && q != d ==> mm.frames[q] == old(mm.frames[q])
  {
    var i := 0;
    while i < UPDX
      invariant 0 <= i <= UPDX && forall k :: 0 <= k < i ==> mm.frames[d][k] == 0
      invariant forall q :: IsPage(q) && q != d ==> mm.frames[q] == old(mm.frames[q])
    {
      mm.frames[d] := mm.frames[d][i := 0];
      i := i + 1;
    }
    while i < PTE2PT
      invariant UPDX <= i <= PTE2PT && forall k :: 0 <= k < i ==> mm.frames[d][k] == if k < UPDX then 0 else boot[k]
      invariant forall q :: IsPage(q) && q != d ==> mm.frames[q] == old(mm.frames[q])
    {
      mm.frames[d] := mm.frames[d][i := boot[i]];
      i := i + 1;
    }
    mm.frames[d] := mm.frames[d][VPT_PDX := d * BY2PG + PTE_V];
    mm.frames[d] := mm.frames[d][UVPT_PDX := d * BY2PG + PTE_V + PTE_R];
  }

  // ----- taking a space apart

  function SpaceOf(s: Slot): int {
    s.d
  }

  // The entries of the spaces other than d.
  function Others(e: map<Slot, int>, d: int): map<Slot, int> {
    map s | s in e && SpaceOf(s) != d :: e[s]
  }

  // No page has become lost, and none has been found.
  ghost predicate SameLost(m: Mem, b: Book, n: Mem, c: Book) {
    forall p :: IsLost(m, b, p) <==> IsLost(n, c, p)
  }

  // Dropping a reference loses no page: a page without further references goes to the free list.
  lemma DropLosesNothing(m: Mem, b: Book, n: Mem, c: Book, p: int)
    requires Inv(m, b) && Inv(n, c) && IsPage(p) && m.pages[p].ref > 0
    requires c.free == FreeAfterDrop(m, b, p)
    requires forall q :: IsPage(q) ==> Held(c, q) == Held(b, q) - if q == p then 1 else 0
    ensures SameLost(m, b, n, c)
  {
    hide Linked, TablesOk;
    forall q
      ensures IsLost(m, b, q) <==> IsLost(n, c, q)
    {
      if IsPage(q) {
        assert RefOk(m, b, q) && RefOk(n, c, q);
        assert Held(c, q) == Held(b, q) - if q == p then 1 else 0;
      }
    }
  }

  lemma RemovalLosesNothing(m: Mem, b: Book, n: Mem, d: int, va: u32)
    requires Inv(m, b) && Inv(n, Unmapped(m, b, d, va))
    ensures SameLost(m, b, n, Unmapped(m, b, d, va))
  {
    hide Inv, IsLost, IsUnheld;
    forall q
      ensures IsLost(m, b, q) <==> IsLost(n, Unmapped(m, b, d, va), q)
    {
      LostIsUnheld(m, b, q);
      LostIsUnheld(n, Unmapped(m, b, d, va), q);
      UnmapLosesNothing(m, b, d, va, q);
    }
  }

  // The address that two indices make.
  function Address(i: nat, j: nat): (va: u32)
    requires i < UPDX && j < PTE2PT
  {
    i * 0x40_0000 + j * BY2PG
  }

  lemma AddressHasIndices(i: nat, j: nat)
    requires i < UPDX && j < PTE2PT
    ensures Pdx(Address(i, j)) == i && Ptx(Address(i, j)) == j
  {
  }

  // Taking away an empty table.
  function WithoutTable(m: Mem, d: int, i: nat, t: int): (n: Mem)
    requires 0 <= d < |m.frames| && 0 <= t < |m.pages| && i < PTE2PT && (m.first == NULL || 0 <= m.first < |m.pages|)
  {
    Dropped(WordSet(m, d, i, 0), t)
  }

  lemma RemoveTableKeepsInv(m: Mem, b: Book, d: int, i: nat)
    requires Inv(m, b) && InDir(d, i) in b.entries && i < UPDX && forall j :: InTable(d, i, j) !in b.entries
    ensures IsPage(d) && IsPage(b.entries[InDir(d, i)]) && (m.first == NULL || 0 <= m.first < |m.pages|)
    ensures Inv(WithoutTable(m, d, i, b.entries[InDir(d, i)]), BookWithout(m, b, InDir(d, i)))
    ensures SameLost(m, b, WithoutTable(m, d, i, b.entries[InDir(d, i)]), BookWithout(m, b, InDir(d, i)))
  {
    TableIsPage(m, b, d, i);
    FirstIsPage(m.pages, m.first, b.free);
    EntryHolds(m, b, InDir(d, i));
    TableGone(m, b, d, i, b.entries[InDir(d, i)]);
  }

  lemma TableGone(m: Mem, b: Book, d: int, i: nat, t: int)
    requires Inv(m, b) && InDir(d, i) in b.entries && i < UPDX && forall j :: InTable(d, i, j) !in b.entries
    requires d in b.dirs && IsPage(d) && t == b.entries[InDir(d, i)] && IsPage(t) && m.pages[t].ref > 0
    requires m.first == NULL || 0 <= m.first < |m.pages|
    ensures Inv(WithoutTable(m, d, i, t), BookWithout(m, b, InDir(d, i)))
    ensures SameLost(m, b, WithoutTable(m, d, i, t), BookWithout(m, b, InDir(d, i)))
  {
    hide Linked, SameLost, TablesOk, RefOk, IsFree, Inserted, Held;
    var n, c := WithoutTable(m, d, i, t), BookWithout(m, b, InDir(d, i));
    forall q | IsPage(q)
      ensures Held(c, q) == Held(b, q) - if q == t then 1 else 0
    {
      HeldWithout(m, b, InDir(d, i), q);
    }
    DropKeepsCounts(m, b, n, c, t);
    TablesAfterRemove(m, b, n, c, d, i);
    DropLosesNothing(m, b, n, c, t);
  }

  lemma HeldWithout(m: Mem, b: Book, s: Slot, q: int)
    requires s in b.entries && 0 <= b.entries[s] < |m.pages|
    ensures Held(BookWithout(m, b, s), q) == Held(b, q) - if q == b.entries[s] then 1 else 0
  {
    CountOfGone(b.entries, s, q);
  }

  // The entries of space d.
  function EntriesOf(e: map<Slot, int>, d: int): map<Slot, int> {
    map s | s in e && SpaceOf(s) == d :: e[s]
  }

  lemma CountSplits(e: map<Slot, int>, d: int, q: int)
    ensures Count(e, q) == Count(Others(e, d), q) + Count(EntriesOf(e, d), q)
  {
    assert Naming(e, q) == Naming(Others(e, d), q) + Naming(EntriesOf(e, d), q);
  }

  // Giving up directory d with the entries it still has: the pages they name stay referred to, by
  // nothing that could ever be unmapped.
  ghost function BookWithoutDir(m: Mem, b: Book, d: int): Book
    requires 0 <= d < |m.pages|
  {
    Book(FreeAfterDrop(m, b, d), b.dirs - {d}, Others(b.entries, d),
         seq(|b.pins|, q requires 0 <= q < |b.pins| =>
           b.pins[q] + Count(EntriesOf(b.entries, d), q) - if q == d && b.pins[q] > 0 then 1 else 0))
  }

  lemma RemoveDirKeepsInv(m: Mem, b: Book, d: int)
    requires Inv(m, b) && d in b.dirs
    ensures IsPage(d) && |b.pins| == NPAGE && b.pins[d] > 0 && (m.first == NULL || 0 <= m.first < |m.pages|)
    ensures Inv(Dropped(m, d), BookWithoutDir(m, b, d)) && SameLost(m, b, Dropped(m, d), BookWithoutDir(m, b, d))
  {
    hide SameLost;
    FirstIsPage(m.pages, m.first, b.free);
    assert RefOk(m, b, d);
    DirGone(m, b, d);
  }

  lemma DirGone(m: Mem, b: Book, d: int)
    requires Inv(m, b) && d in b.dirs && IsPage(d) && b.pins[d] > 0 && m.pages[d].ref > 0
    requires m.first == NULL || 0 <= m.first < |m.pages|
    ensures Inv(Dropped(m, d), BookWithoutDir(m, b, d)) && SameLost(m, b, Dropped(m, d), BookWithoutDir(m, b, d))
  {
    hide Linked, SameLost, TablesOk, RefOk, IsFree, Inserted;
    var n, c := Dropped(m, d), BookWithoutDir(m, b, d);
    forall q | IsPage(q)
      ensures Held(c, q) == Held(b, q) - if q == d then 1 else 0
    {
      CountSplits(b.entries, d, q);
    }
    DropKeepsCounts(m, b, n, c, d);
    TablesAfterDirGone(m, b, n, c, d);
    DropLosesNothing(m, b, n, c, d);
  }

  lemma TablesAfterDirGone(m: Mem, b: Book, n: Mem, c: Book, d: int)
    requires SizesOk(m, b) && SizesOk(n, c) && TablesOk(m, b) && IsPage(d) && n.frames == m.frames
    requires c.dirs == b.dirs - {d} && c.entries == Others(b.entries, d)
    requires forall e :: e in c.dirs && IsPage(e) ==> c.pins[e] >= b.pins[e]
    ensures TablesOk(n, c)
  {
    forall s | s in c.entries
      ensures SlotOk(c, s)
    {
      assert SlotOk(b, s);
    }
    forall s, t | s in c.entries && t in c.entries
      ensures OneTable(c, s, t)
    {
      assert OneTable(b, s, t);
    }
    forall e, i | e in c.dirs && 0 <= i < OWNPDX
      ensures DirOk(n, c, e, i)
    {
      assert DirOk(m, b, e, i);
    }
    forall e, i, j | InDir(e, i) in c.entries && 0 <= j < PTE2PT
      ensures TableOk(n, c, e, i, j)
    {
      assert SlotOk(b, InDir(e, i)) && TableOk(m, b, e, i, j);
    }
  }

  // ----- env_free

  // Slot s is the same in both.
  ghost predicate Agree(e: map<Slot, int>, f: map<Slot, int>, s: Slot) {
    (s in e <==> s in f) && (s in e ==> e[s] == f[s])
  }

  // What taking a space apart keeps: the other spaces, the entries above UTOP, the holds, and that no
  // page gets lost.
  ghost predicate Dismantles(m: Mem, b: Book, n: Mem, c: Book, d: int) {
    && c.dirs == b.dirs && c.pins == b.pins && SameLost(m, b, n, c)
    && forall s :: SpaceOf(s) != d || s.i >= UPDX ==> Agree(b.entries, c.entries, s)
  }

  lemma DismantlesThen(m: Mem, b: Book, n: Mem, c: Book, u: Mem, e: Book, d: int)
    requires Dismantles(m, b, n, c, d) && Dismantles(n, c, u, e, d)
    ensures Dismantles(m, b, u, e, d)
  {
    hide IsLost;
    forall s | SpaceOf(s) != d || s.i >= UPDX
      ensures Agree(b.entries, e.entries, s)
    {
      assert Agree(b.entries, c.entries, s) && Agree(c.entries, e.entries, s);
    }
  }

  // Only the directory of space d and the tables that entries e give it have been written to.
  ghost predicate OnlySpace(f: seq<Frame>, g: seq<Frame>, e: map<Slot, int>, d: int) {
    |f| == |g| == NPAGE && forall q :: IsPage(q) && q != d && !IsTableOf(e, d, q) ==> g[q] == f[q]
  }

  ghost predicate IsTableOf(e: map<Slot, int>, d: int, q: int) {
    exists i :: InDir(d, i) in e && e[InDir(d, i)] == q
  }

  lemma OnlySpaceThen(f: seq<Frame>, g: seq<Frame>, h: seq<Frame>, e: map<Slot, int>, d: int, i: int)
    requires OnlySpace(f, g, e, d) && |h| == NPAGE && InDir(d, i) in e
    requires forall q :: IsPage(q) && q != d && q != e[InDir(d, i)] ==> h[q] == g[q]
    ensures OnlySpace(f, h, e, d)
  {
    assert IsTableOf(e, d, e[InDir(d, i)]);
  }

  // Unmaps all pages of table i.
  method ClearTable(mm: Memory, d: int, i: nat)
    requires mm.Valid() && d in mm.book.dirs && i < UPDX && InDir(d, i) in mm.book.entries
    modifies mm, mm.pages, mm.frames
    ensures mm.Valid() && Dismantles(old(mm.Now()), old(mm.book), mm.Now(), mm.book, d)
    ensures Agree(old(mm.book.entries), mm.book.entries, InDir(d, i))
    ensures forall j :: InTable(d, i, j) !in mm.book.entries
    ensures forall s :: s in mm.book.entries ==> Agree(old(mm.book.entries), mm.book.entries, s)
    ensures forall q :: IsPage(q) && q != old(mm.book.entries)[InDir(d, i)] ==> mm.frames[q] == old(mm.frames[q])
  {
    hide TablesOk, RefOk, Linked, IsLost;
    ghost var m, b := mm.Now(), mm.book;
    TableIsPage(m, b, d, i);
    var t := PageOf(mm.frames[d][i]);
    var j := 0;
    while j < PTE2PT
      invariant 0 <= j <= PTE2PT && mm.Valid() && Dismantles(m, b, mm.Now(), mm.book, d)
      invariant Agree(b.entries, mm.book.entries, InDir(d, i)) && t == mm.book.entries[InDir(d, i)]
      invariant forall k :: 0 <= k < j ==> InTable(d, i, k) !in mm.book.entries
      invariant forall s :: s in mm.book.entries ==> Agree(b.entries, mm.book.entries, s)
      invariant forall q :: IsPage(q) && q != t ==> mm.frames[q] == old(mm.frames[q])
    {
      ghost var n, c := mm.Now(), mm.book;
      TableIs(n, c, d, i, j);
      if IsValid(mm.frames[t][j]) {
        var va := Address(i, j);
        AddressHasIndices(i, j);
        EntryIsPage(n, c, InTable(d, i, j));
        PageRemove(mm, d, va);
        RemovalLosesNothing(n, c, mm.Now(), d, va);
        DismantlesThen(m, b, n, c, mm.Now(), mm.book, d);
      }
      j := j + 1;
    }
    forall k
      ensures InTable(d, i, k) !in mm.book.entries
    {
      if InTable(d, i, k) in mm.book.entries {
        SlotInRange(mm.Now(), mm.book, InTable(d, i, k));
      }
    }
  }

  lemma SlotInRange(m: Mem, b: Book, s: Slot)
    requires Inv(m, b) && s in b.entries
    ensures 0 <= s.i < OWNPDX && SpaceOf(s) in b.dirs && InDir(s.d, s.i) in b.entries
    ensures s.InTable? ==> 0 <= s.j < PTE2PT
  {
    assert SlotOk(b, s);
    if s.InTable? {
      assert SlotOk(b, InDir(s.d, s.i));
    }
  }

  // Takes table i of directory d apart.
  method DropTable(mm: Memory, d: int, i: nat)
    requires mm.Valid() && d in mm.book.dirs && i < UPDX && InDir(d, i) in mm.book.entries
    modifies mm, mm.pages, mm.frames
    ensures mm.Valid() && Dismantles(old(mm.Now()), old(mm.book), mm.Now(), mm.book, d)
    ensures forall s :: s in mm.book.entries ==> Agree(old(mm.book.entries), mm.book.entries, s) && !(SpaceOf(s) == d && s.i == i)
    ensures forall q :: IsPage(q) && q != d && q != old(mm.book.entries)[InDir(d, i)] ==> mm.frames[q] == old(mm.frames[q])
    ensures IsPage(d) && forall k :: 0 <= k < PTE2PT && k != i ==> mm.frames[d][k] == old(mm.frames[d][k])
  {
    hide TablesOk, RefOk, Linked, IsLost;
    ghost var m, b := mm.Now(), mm.book;
    TableIsPage(m, b, d, i);
    var t := PageOf(mm.frames[d][i]);
    TableIsNoDir(m, b, d, i);
    ClearTable(mm, d, i);
    ghost var n, c := mm.Now(), mm.book;
    RemoveTableKeepsInv(n, c, d, i);
    mm.frames[d] := mm.frames[d][i := 0];
    assert mm.Now() == WordSet(n, d, i, 0);
    PageDecref(mm, t);
    mm.book := BookWithout(n, c, InDir(d, i));
    DismantlesThen(m, b, n, c, mm.Now(), mm.book, d);
  }

  // The entries of space d at or above UTOP.
  function Heap(e: map<Slot, int>, d: int): map<Slot, int> {
    map s | s in e && SpaceOf(s) == d && s.i >= UPDX :: e[s]
  }

  // Space d has been taken apart: its entries are gone and its directory is given up; nothing else
  // has changed and no page has been lost. What it had mapped at or above UTOP is still referred to.
  ghost predicate SpaceFreed(m: Mem, b: Book, n: Mem, c: Book, d: int) {
    && Inv(n, c) && IsPage(d) && |b.pins| == |c.pins| == NPAGE && b.pins[d] > 0
    && c.dirs == b.dirs - {d} && c.entries == Others(b.entries, d)
    && (forall q :: IsPage(q) ==> c.pins[q] == b.pins[q] + Count(Heap(b.entries, d), q) - if q == d then 1 else 0)
    && SameLost(m, b, n, c)
  }

  // The memory part of env_free: gives back all pages of the user part of a space, its tables and
  // its directory.
  method FreeVm(mm: Memory, d: int)
    requires mm.Valid() && d in mm.book.dirs
    modifies mm, mm.pages, mm.frames
    ensures mm.Valid() && SpaceFreed(old(mm.Now()), old(mm.book), mm.Now(), mm.book, d)
    ensures OnlySpace(old(mm.frames[..]), mm.frames[..], old(mm.book.entries), d)
    ensures forall k :: 0 <= k < PTE2PT ==>
      if k < UPDX then !IsValid(mm.frames[d][k]) else mm.frames[d][k] == old(mm.frames[d][k])
  {
    hide TablesOk, RefOk, Linked, IsLost;
    ghost var m, b := mm.Now(), mm.book;
    DirIsPage(m, b, d);
    forall s | s in b.entries
      ensures s.i >= 0
    {
      SlotInRange(m, b, s);
    }
    var i := 0;
    while i < UPDX
      invariant 0 <= i <= UPDX && mm.Valid() && Dismantles(m, b, mm.Now(), mm.book, d)
      invariant forall s :: s in mm.book.entries && SpaceOf(s) == d ==> s.i >= i
      invariant forall s :: s in mm.book.entries ==> Agree(b.entries, mm.book.entries, s)
      invariant OnlySpace(m.frames, mm.frames[..], b.entries, d)
      invariant forall k :: UPDX <= k < PTE2PT ==> mm.frames[d][k] == m.frames[d][k]
      invariant forall k :: 0 <= k < i ==> !IsValid(mm.frames[d][k])
    {
      ghost var n, c := mm.Now(), mm.book;
      DirIs(n, c, d, i);
      if !IsValid(mm.frames[d][i]) {
        NoSlotsWithoutTable(n, c, d, i);
      } else {
        DropTable(mm, d, i);
        OnlySpaceThen(m.frames, n.frames, mm.frames[..], b.entries, d, i);
        DirIs(mm.Now(), mm.book, d, i);
        DismantlesThen(m, b, n, c, mm.Now(), mm.book, d);
      }
      i := i + 1;
    }
    ghost var n, c := mm.Now(), mm.book;
    OnlyHeap(b.entries, c.entries, d);
    RemoveDirKeepsInv(n, c, d);
    PageDecref(mm, d);
    mm.book := BookWithoutDir(n, c, d);
  }

  lemma NoSlotsWithoutTable(m: Mem, b: Book, d: int, i: nat)
    requires Inv(m, b) && InDir(d, i) !in b.entries
    ensures forall s :: s in b.entries && SpaceOf(s) == d ==> s.i != i
  {
    forall s | s in b.entries && SpaceOf(s) == d
      ensures s.i != i
    {
      SlotInRange(m, b, s);
    }
  }

  lemma OnlyHeap(e: map<Slot, int>, f: map<Slot, int>, d: int)
    requires forall s :: SpaceOf(s) != d || s.i >= UPDX ==> Agree(e, f, s)
    requires forall s :: s in f && SpaceOf(s) == d ==> s.i >= UPDX
    ensures Others(f, d) == Others(e, d) && EntriesOf(f, d) == Heap(e, d)
  {
    forall s
      ensures s in Others(f, d) <==> s in Others(e, d)
      ensures s in EntriesOf(f, d) <==> s in Heap(e, d)
    {
      assert SpaceOf(s) != d || s.i >= UPDX ==> Agree(e, f, s);
    }
  }
}
