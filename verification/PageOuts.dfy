// pageout, and which pages an operation loses.
module PageOuts {
  import opened Words
  import opened PageList
  import opened PageTables
  import opened Paging

  // ----- lost pages

  // A page that nobody refers to and that is not free.
  ghost predicate IsLost(m: Mem, b: Book, p: int) {
    IsPage(p) && |m.pages| == NPAGE && m.pages[p].ref == 0 && p !in b.free
  }

  // The same in terms of the books.
  ghost predicate IsUnheld(b: Book, p: int) {
    IsPage(p) && Held(b, p) == 0 && p !in b.free
  }

  lemma LostIsUnheld(m: Mem, b: Book, p: int)
    requires Inv(m, b)
    ensures IsLost(m, b, p) <==> IsUnheld(b, p)
  {
    hide Linked, TablesOk;
    if IsPage(p) {
      assert RefOk(m, b, p);
    }
  }

  // page_remove neither loses a page nor finds one.
  lemma UnmapLosesNothing(m: Mem, b: Book, d: int, va: u32, q: int)
    requires Inv(m, b)
    ensures IsUnheld(Unmapped(m, b, d, va), q) <==> IsUnheld(b, q)
  {
    hide Linked, TablesOk, RefOk;
    var s := InTable(d, Pdx(va), Ptx(va));
    if s in b.entries {
      EntryHolds(m, b, s);
      CountOfGone(b.entries, s, q);
      CountIsRef(m, b, b.entries[s]);
    }
  }

  lemma CountIsRef(m: Mem, b: Book, p: int)
    requires Inv(m, b) && IsPage(p)
    ensures |m.pages| == NPAGE && m.pages[p].ref == Held(b, p)
  {
    assert RefOk(m, b, p);
  }

  // page_insert loses no page either; a page that was lost is not, once it has been mapped.
  lemma InsertLosesNothing(m: Mem, b: Book, d: int, va: u32, p: int, q: int)
    requires Inv(m, b) && IsPage(p) && p !in b.free
    ensures IsUnheld(Mapped(m, b, d, va, p), q) <==> IsUnheld(b, q) && !(HasRoom(b, d, va) && q == p)
  {
    hide Linked, TablesOk, RefOk;
    var s, r := InTable(d, Pdx(va), Ptx(va)), InDir(d, Pdx(va));
    NoPageWithoutTable(m, b, d, va);
    if s in b.entries {
      EntryHolds(m, b, s);
      CountIsRef(m, b, b.entries[s]);
      if b.entries[s] != p {
        var u := Unmapped(m, b, d, va);
        UnmapLosesNothing(m, b, d, va, q);
        CountOfNew(u.entries, s, p, q);
      }
    } else if r in b.entries {
      CountOfNew(b.entries, s, p, q);
    } else if b.free != [] {
      FirstIsFree(m, b);
      CountOfNew(b.entries, r, b.free[0], q);
      CountOfNew(b.entries[r := b.free[0]], s, p, q);
    }
  }

  // A page that has been allocated is lost until somebody refers to it.
  lemma AllocLosesFirst(m: Mem, b: Book, q: int)
    requires Inv(m, b) && b.free != []
    ensures IsUnheld(b.(free := b.free[1..]), q) <==> IsUnheld(b, q) || q == b.free[0]
  {
    hide Linked, TablesOk, RefOk;
    FirstIsFree(m, b);
    FreeIsUnused(m, b, b.free[0]);
  }

  // ----- pageout

  // Whether pageout has a page to map and, if need be, another one for a table.
  ghost predicate CanPageOut(b: Book, d: int, va: u32) {
    |b.free| >= 2 || (|b.free| == 1 && InDir(d, Pdx(va)) in b.entries)
  }

  // Whether pageout gets as far as storing an entry for page NULL: it has no page, and a table.
  ghost predicate MapsNull(b: Book, d: int, va: u32) {
    b.free == [] && InDir(d, Pdx(va)) in b.entries
  }

  // An entry for page NULL stored at va, in a table of directory d, where nothing is mapped any more.
  // page2pa(NULL) gives page number nullPage, whatever the address of the descriptors makes of it.
  ghost predicate NullMapped(m: Mem, b: Book, n: Mem, d: int, va: u32, nullPage: nat)
    requires nullPage < 0x10_0000
  {
    exists u :: NullStored(u, Unmapped(m, b, d, va), n, d, va, nullPage)
  }

  ghost predicate NullStored(u: Mem, e: Book, n: Mem, d: int, va: u32, nullPage: nat)
    requires nullPage < 0x10_0000
  {
    && Inv(u, e) && InTable(d, Pdx(va), Ptx(va)) !in e.entries && InDir(d, Pdx(va)) in e.entries
    && IsPage(e.entries[InDir(d, Pdx(va))]) && |u.frames| == NPAGE
    && n == WordSet(u, e.entries[InDir(d, Pdx(va))], Ptx(va), Entry(nullPage, PTE_R))
  }

  // What pageout does: it maps the first free page, if there is one, as far as page_insert succeeds.
  // Without a page it goes on with page NULL, since the error number of page_alloc is tested in an
  // unsigned variable.
  ghost predicate PagedOut(m: Mem, b: Book, n: Mem, c: Book, d: int, va: u32, nullPage: nat)
    requires nullPage < 0x10_0000
  {
    if b.free != [] then
      var a := b.(free := b.free[1..]);
      && Inv(n, c) && c == Mapped(Allocated(m), a, d, va, b.free[0])
      && (!CanPageOut(b, d, va) ==> n == Allocated(m))
    else if MapsNull(b, d, va) then c == Unmapped(m, b, d, va) && NullMapped(m, b, n, d, va, nullPage)
    else n == m && c == b
  }

  // pageout, below UENVS. It looks neither at the result of page_alloc nor at that of page_insert.
  method PageOut(mm: Memory, d: int, va: u32, nullPage: nat) returns (pa: u32)
    requires mm.Valid() && d in mm.book.dirs && Pdx(va) < OWNPDX && nullPage < 0x10_0000
    modifies mm, mm.pages, mm.frames
    ensures PagedOut(old(mm.Now()), old(mm.book), mm.Now(), mm.book, d, va, nullPage)
    ensures MapsNull(old(mm.book), d, va) || mm.Valid()
    ensures pa ==
      if CanPageOut(old(mm.book), d, va) then old(mm.book.free[0]) * BY2PG + va as int % BY2PG
      else if MapsNull(old(mm.book), d, va) then nullPage * BY2PG + va as int % BY2PG
      else ALL_ONES
    ensures CanPageOut(old(mm.book), d, va) ==>
      && InDir(d, Pdx(va)) in mm.book.entries
      && var t := mm.book.entries[InDir(d, Pdx(va))];
        && IsPage(t) && IsPage(d) && mm.frames.Length == NPAGE
        && mm.frames[t][Ptx(va)] == old(mm.book.free[0]) * 0x1000 + 0x600
        && OnlyEntry(Allocated(old(mm.Now())).frames, mm.frames[..], d, Pdx(va), t,
                     InDir(d, Pdx(va)) !in old(mm.book.entries), Ptx(va))
    ensures MapsNull(old(mm.book), d, va) ==>
      && IsPage(old(mm.book.entries)[InDir(d, Pdx(va))]) && mm.frames.Length == NPAGE
      && mm.frames[..] == WithWord(old(mm.frames[..]), old(mm.book.entries)[InDir(d, Pdx(va))], Ptx(va), nullPage * 0x1000 + 0x600)
  {
    hide TablesOk, RefOk, Linked, OnlyEntry, WithWord, Spells;
    ghost var m, b := mm.Now(), mm.book;
    var aligned: u32 := va - va as int % BY2PG;
    SamePage(va, aligned);
    var ok, p := PageAlloc(mm);
    if ok {
      ghost var n, c := mm.Now(), mm.book;
      JustAllocated(m, b);
      var done := PageInsert(mm, d, p, aligned, PTE_R);
      SpelledWritable(p);
      if HasRoom(c, d, va) {
        InsertIsUpdate(n, c, d, va, p, d, va);
      } else {
        FailedInsert(n, c, d, va, p);
        NoTableNoPage(n, c, d, va);
      }
      TranslatedIsMapped(mm.Now(), mm.book, d, va);
    } else {
      var done := InsertNull(mm, d, aligned, nullPage);
      if done {
        SamePageNull(m, b, mm.Now(), d, va, aligned, nullPage);
      } else {
        NoTableNoPage(m, b, d, va);
        TranslatedIsMapped(mm.Now(), mm.book, d, va);
      }
    }
    pa := Va2pa(mm, d, va);
  }

  lemma SpelledWritable(p: int)
    ensures forall w: u32 :: Spells(w, p, PTE_R) ==> w == p * 0x1000 + 0x600
  {
  }

  // page_insert of page NULL, without a free page. Where the reference that it counts through NULL
  // goes is not modelled; it is none of the descriptors.
  method InsertNull(mm: Memory, d: int, va: u32, nullPage: nat) returns (ok: bool)
    requires mm.Valid() && d in mm.book.dirs && Pdx(va) < OWNPDX && mm.book.free == [] && nullPage < 0x10_0000
    modifies mm, mm.pages, mm.frames
    ensures ok == MapsNull(old(mm.book), d, va)
    ensures !ok ==> mm.Now() == old(mm.Now()) && mm.book == old(mm.book) && mm.Valid()
    ensures ok ==> mm.book == Unmapped(old(mm.Now()), old(mm.book), d, va)
    ensures ok ==> NullMapped(old(mm.Now()), old(mm.book), mm.Now(), d, va, nullPage)
    ensures ok ==> mm.frames.Length == NPAGE && IsPage(d)
    ensures ok ==> IsValid(mm.frames[d][Pdx(va)]) && IsPage(PageOf(mm.frames[d][Pdx(va)]))
    ensures ok ==> Translated(mm.frames[..], d, va) == nullPage * BY2PG + va as int % BY2PG
    ensures ok ==>
      && IsPage(old(mm.book.entries)[InDir(d, Pdx(va))])
      && mm.frames[..] == WithWord(old(mm.frames[..]), old(mm.book.entries)[InDir(d, Pdx(va))], Ptx(va), nullPage * 0x1000 + 0x600)
  {
    hide TablesOk, RefOk, Linked, WithV;
    ghost var m, b := mm.Now(), mm.book;
    var j := Ptx(va);
    var walked, t := PgdirWalk(mm, d, va, true);
    if t == NULL {
      return false;
    }
    TableIs(mm.Now(), mm.book, d, Pdx(va), j);
    if IsValid(mm.frames[t][j]) {
      PageRemove(mm, d, va);
    }
    ghost var u, e := mm.Now(), mm.book;
    TableStays(m, b, d, va);
    TableIsApart(u, e, d, Pdx(va));
    EntryNames(nullPage, PTE_R);
    EntrySpells(nullPage, PTE_R);
    mm.frames[t] := mm.frames[t][j := Entry(nullPage, PTE_R)];
    assert mm.Now() == WordSet(u, t, j, Entry(nullPage, PTE_R));
    assert NullStored(u, e, mm.Now(), d, va, nullPage);
    WordTwice(m.frames, t, j, Entry(nullPage, PTE_R));
    ok := true;
  }

  lemma SamePageNull(m: Mem, b: Book, n: Mem, d: int, va: u32, aligned: u32, nullPage: nat)
    requires aligned == va - va as int % BY2PG && nullPage < 0x10_0000
    requires NullMapped(m, b, n, d, aligned, nullPage)
    ensures NullMapped(m, b, n, d, va, nullPage) && Unmapped(m, b, d, aligned) == Unmapped(m, b, d, va)
  {
    hide Inv;
    SamePage(va, aligned);
    var u :| NullStored(u, Unmapped(m, b, d, aligned), n, d, aligned, nullPage);
    assert NullStored(u, Unmapped(m, b, d, va), n, d, va, nullPage);
  }

  // Unmapping takes the entry away and leaves the table.
  lemma TableStays(m: Mem, b: Book, d: int, va: u32)
    requires Inv(m, b) && InDir(d, Pdx(va)) in b.entries
    ensures var e := Unmapped(m, b, d, va).entries;
      InTable(d, Pdx(va), Ptx(va)) !in e && InDir(d, Pdx(va)) in e && e[InDir(d, Pdx(va))] == b.entries[InDir(d, Pdx(va))]
  {
    var s := InTable(d, Pdx(va), Ptx(va));
    if s in b.entries {
      EntryIsPage(m, b, s);
    }
  }

  // A table is not its own directory.
  lemma TableIsApart(m: Mem, b: Book, d: int, i: int)
    requires Inv(m, b) && InDir(d, i) in b.entries
    ensures IsPage(d) && IsPage(b.entries[InDir(d, i)]) && b.entries[InDir(d, i)] != d
    ensures 0 <= i < OWNPDX && IsValid(m.frames[d][i]) && PageOf(m.frames[d][i]) == b.entries[InDir(d, i)]
  {
    assert SlotOk(b, InDir(d, i));
    TableIsPage(m, b, d, i);
  }

  lemma SamePage(va: u32, aligned: u32)
    requires aligned == va - va as int % BY2PG
    ensures Pdx(aligned) == Pdx(va) && Ptx(aligned) == Ptx(va)
  {
    assert Vpn(aligned) == Vpn(va);
    VpnIsIndices(va, aligned);
  }

  lemma JustAllocated(m: Mem, b: Book)
    requires Inv(m, b) && b.free != []
    ensures 0 <= m.first < |m.pages| && |m.frames| == |m.pages|
    ensures IsLost(Allocated(m), b.(free := b.free[1..]), b.free[0])
  {
    AllocKeepsInv(m, b);
    FreeIsUnused(m, b, b.free[0]);
    ListKeepsRefs(m.pages, m.first, m.first, m.first);
  }

  // A memory in order that has an entry for page NULL has it in its books.
  lemma NullIsNew(u: Mem, e: Book, n: Mem, c: Book, d: int, va: u32, nullPage: nat)
    requires nullPage < 0x10_0000 && NullStored(u, e, n, d, va, nullPage)
    requires Inv(n, c) && c.dirs == e.dirs
    ensures c.entries == e.entries[InTable(d, Pdx(va), Ptx(va)) := nullPage]
  {
    hide Inv, WithV;
    var f := e.entries[InTable(d, Pdx(va), Ptx(va)) := nullPage];
    forall s
      ensures s in c.entries <==> s in f
      ensures s in f ==> c.entries[s] == f[s]
    {
      match s {
        case InDir(g, i) => DirSlotKept(u, e, n, c, d, va, nullPage, g, i);
        case InTable(g, i, j) =>
          DirSlotKept(u, e, n, c, d, va, nullPage, g, i);
          TableSlotKept(u, e, n, c, d, va, nullPage, g, i, j);
      }
    }
  }

  lemma DirSlotKept(u: Mem, e: Book, n: Mem, c: Book, d: int, va: u32, nullPage: nat, f: int, i: int)
    requires nullPage < 0x10_0000 && NullStored(u, e, n, d, va, nullPage)
    requires Inv(n, c) && c.dirs == e.dirs
    ensures InDir(f, i) in c.entries <==> InDir(f, i) in e.entries
    ensures InDir(f, i) in e.entries ==> c.entries[InDir(f, i)] == e.entries[InDir(f, i)]
  {
    hide Linked, WithV, RefOk;
    var r := InDir(d, Pdx(va));
    EntryNames(nullPage, PTE_R);
    assert SlotOk(e, r);
    assert InDir(f, i) in e.entries ==> SlotOk(e, InDir(f, i));
    assert InDir(f, i) in c.entries ==> SlotOk(c, InDir(f, i));
    if f in e.dirs && 0 <= i < OWNPDX {
      assert DirOk(u, e, f, i) && DirOk(n, c, f, i);
    }
  }

  lemma TableSlotKept(u: Mem, e: Book, n: Mem, c: Book, d: int, va: u32, nullPage: nat, f: int, i: int, j: int)
    requires nullPage < 0x10_0000 && NullStored(u, e, n, d, va, nullPage)
    requires Inv(n, c) && (InDir(f, i) in c.entries <==> InDir(f, i) in e.entries)
    requires InDir(f, i) in e.entries ==> c.entries[InDir(f, i)] == e.entries[InDir(f, i)]
    ensures var g := e.entries[InTable(d, Pdx(va), Ptx(va)) := nullPage];
      && (InTable(f, i, j) in c.entries <==> InTable(f, i, j) in g)
      && (InTable(f, i, j) in g ==> c.entries[InTable(f, i, j)] == g[InTable(f, i, j)])
  {
    hide Linked, WithV, RefOk;
    var r, s := InDir(d, Pdx(va)), InTable(f, i, j);
    EntryNames(nullPage, PTE_R);
    assert s in e.entries ==> SlotOk(e, s);
    assert s in c.entries ==> SlotOk(c, s);
    if InDir(f, i) in e.entries && 0 <= j < PTE2PT {
      assert SlotOk(e, InDir(f, i)) && OneTable(e, InDir(f, i), r);
      assert TableOk(u, e, f, i, j) && TableOk(n, c, f, i, j);
    }
  }

  // No books with the same directories and holds fit a memory with an entry for page NULL: the page
  // is none, or its count has not gone up.
  lemma NullFitsNoBooks(u: Mem, e: Book, n: Mem, c: Book, d: int, va: u32, nullPage: nat)
    requires nullPage < 0x10_0000 && NullStored(u, e, n, d, va, nullPage)
    requires c.dirs == e.dirs && c.pins == e.pins
    ensures !Inv(n, c)
  {
    hide Linked, TablesOk, WithV;
    if Inv(n, c) {
      var s := InTable(d, Pdx(va), Ptx(va));
      NullIsNew(u, e, n, c, d, va, nullPage);
      EntryIsPage(n, c, s);
      assert RefOk(u, e, nullPage) && RefOk(n, c, nullPage);
      CountOfNew(e.entries, s, nullPage, nullPage);
      assert false;
    }
  }

  // When there is a page: pageout maps it, or leaves it lost.
  lemma MapsOrLoses(m: Mem, b: Book, n: Mem, c: Book, d: int, va: u32, nullPage: nat)
    requires Inv(m, b) && b.free != [] && nullPage < 0x10_0000 && PagedOut(m, b, n, c, d, va, nullPage)
    ensures MappedAt(c.entries, d, va) == b.free[0] <==> CanPageOut(b, d, va)
    ensures forall q :: IsLost(n, c, q) <==> IsLost(m, b, q) || (!CanPageOut(b, d, va) && q == b.free[0])
  {
    hide Inv, IsLost, IsUnheld, Mapped;
    var a, p := b.(free := b.free[1..]), b.free[0];
    AllocKeepsInv(m, b);
    FirstIsFree(m, b);
    FreeIsUnused(m, b, p);
    if HasRoom(a, d, va) {
      InsertIsUpdate(Allocated(m), a, d, va, p, d, va);
    } else {
      FailedInsert(Allocated(m), a, d, va, p);
      NoTableNoPage(Allocated(m), a, d, va);
    }
    forall q
      ensures IsLost(n, c, q) <==> IsLost(m, b, q) || (!CanPageOut(b, d, va) && q == p)
    {
      LostIsUnheld(m, b, q);
      LostIsUnheld(n, c, q);
      AllocLosesFirst(m, b, q);
      InsertLosesNothing(Allocated(m), a, d, va, p, q);
      FreeIsHeldNot(b, p);
    }
  }

  lemma FreeIsHeldNot(b: Book, p: int)
    requires p in b.free
    ensures !IsUnheld(b, p)
  {
  }

  // When there is none: nothing happens, or page NULL is mapped.
  lemma NullOrNothing(m: Mem, b: Book, n: Mem, c: Book, d: int, va: u32, nullPage: nat)
    requires Inv(m, b) && b.free == [] && nullPage < 0x10_0000 && PagedOut(m, b, n, c, d, va, nullPage)
    ensures forall q :: IsLost(n, c, q) <==> IsLost(m, b, q)
    ensures if MapsNull(b, d, va)
      then forall e: Book :: e.dirs == b.dirs && e.pins == b.pins ==> !Inv(n, e)
      else n == m && c == b
  {
    hide Inv, IsUnheld;
    if MapsNull(b, d, va) {
      var u :| NullStored(u, c, n, d, va, nullPage);
      forall e: Book | e.dirs == b.dirs && e.pins == b.pins
        ensures !Inv(n, e)
      {
        NullFitsNoBooks(u, c, n, e, d, va, nullPage);
      }
      forall q
        ensures IsLost(n, c, q) <==> IsLost(m, b, q)
      {
        LostIsUnheld(m, b, q);
        LostIsUnheld(u, c, q);
        UnmapLosesNothing(m, b, d, va, q);
      }
    }
  }

  // pageout maps a fresh page at va exactly when it has a page and, if the table for va is missing,
  // another one. It loses a page exactly when it takes the last free one and the table is missing,
  // and leaves memory that no books fit exactly when it has no page and the table is there.
  lemma PageOutIsExact(m: Mem, b: Book, n: Mem, c: Book, d: int, va: u32, nullPage: nat)
    requires Inv(m, b) && nullPage < 0x10_0000 && PagedOut(m, b, n, c, d, va, nullPage)
    ensures b.free != [] && MappedAt(c.entries, d, va) == b.free[0] <==> CanPageOut(b, d, va)
    ensures (exists q :: IsLost(n, c, q) && !IsLost(m, b, q)) <==> |b.free| == 1 && InDir(d, Pdx(va)) !in b.entries
    ensures (forall e: Book :: e.dirs == b.dirs && e.pins == b.pins ==> !Inv(n, e)) <==> MapsNull(b, d, va)
  {
    hide Inv, IsUnheld, Mapped;
    if b.free != [] {
      MapsOrLoses(m, b, n, c, d, va, nullPage);
      AllocKeepsInv(m, b);
      JustAllocated(m, b);
      assert !IsLost(m, b, b.free[0]);
      MappedKeepsHolds(Allocated(m), b.(free := b.free[1..]), d, va, b.free[0]);
    } else {
      NullOrNothing(m, b, n, c, d, va, nullPage);
    }
  }

  lemma MappedKeepsHolds(m: Mem, b: Book, d: int, va: u32, p: int)
    ensures Mapped(m, b, d, va, p).dirs == b.dirs && Mapped(m, b, d, va, p).pins == b.pins
  {
  }
}
