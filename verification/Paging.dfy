// The page allocator and the page table operations of mm/pmap.c.
module Paging {
  import opened Words
  import opened PageList
  import opened PageTables

  class Memory {
    const pages: array<Page>       // page descriptors
    const frames: array<Frame>     // page contents, by word
    var first: int                 // page_free_list
    ghost var book: Book

    ghost function Now(): Mem
      reads this, pages, frames
    {
      Mem(pages[..], first, frames[..])
    }

    ghost predicate Valid()
      reads this, pages, frames
    {
      pages.Length == NPAGE && frames.Length == NPAGE && Inv(Now(), book)
    }

    // page_init: the pages below reserved belong to the kernel, the others are free.
    constructor (reserved: nat)
      requires reserved <= NPAGE
      ensures Valid() && fresh(pages) && fresh(frames)
      ensures |book.free| == NPAGE - reserved && forall k :: 0 <= k < |book.free| ==> book.free[k] == NPAGE - 1 - k
      ensures book.dirs == {} && book.entries == map[] && book.pins == Reserved(reserved)
    {
      pages := new Page[NPAGE](_ => Page(NULL, Nowhere, 0));
      frames := new Frame[NPAGE](_ => ZeroFrame());
      first := NULL;
      book := Book([], {}, map[], Reserved(reserved));
      new;
      ghost var free: seq<int> := [];
      var i := 0;
      while i < reserved
        invariant 0 <= i <= reserved && first == NULL
        invariant forall k :: 0 <= k < NPAGE ==> pages[k] == Page(NULL, Nowhere, if k < i then 1 else 0)
        invariant book == Book([], {}, map[], Reserved(reserved))
      {
        pages[i] := pages[i].(ref := 1);
        i := i + 1;
      }
      while i < NPAGE
        invariant reserved <= i <= NPAGE && (first == NULL || 0 <= first < NPAGE)
        invariant Linked(pages[..], first, free)
        invariant forall k :: 0 <= k < NPAGE ==> pages[k].ref == (if k < reserved then 1 else 0)
        invariant |free| == i - reserved && forall k :: 0 <= k < |free| ==> free[k] == i - 1 - k
        invariant book == Book([], {}, map[], Reserved(reserved))
      {
        ghost var was := pages[..];
        pages[i] := pages[i].(ref := 0);
        assert pages[..] == was[i := was[i].(ref := 0)];
        RefsDoNotMatter(was, first, free, i, 0);
        ghost var p, f := pages[..], first;
        InsertPutsFirst(p, f, free, i);
        ListInsertHead(this, i);
        forall k | 0 <= k < NPAGE
          ensures pages[k].ref == if k < reserved then 1 else 0
        {
          ListKeepsRefs(p, f, i, k);
          assert pages[..][k] == pages[k];
        }
        free := [i] + free;
        i := i + 1;
      }
      book := book.(free := free);
      StartsInOrder(Now(), book, reserved);
    }
  }

  lemma StartsInOrder(m: Mem, b: Book, reserved: nat)
    requires reserved <= NPAGE && |m.pages| == |m.frames| == NPAGE
    requires b == Book(b.free, {}, map[], Reserved(reserved)) && Linked(m.pages, m.first, b.free)
    requires forall p :: 0 <= p < NPAGE ==> m.pages[p].ref == if p < reserved then 1 else 0
    requires |b.free| == NPAGE - reserved && forall k :: 0 <= k < |b.free| ==> b.free[k] == NPAGE - 1 - k
    ensures Inv(m, b)
  {
    forall p | IsPage(p)
      ensures RefOk(m, b, p)
    {
      assert Naming(b.entries, p) == {};
    }
  }

  // A pin for each page of the kernel.
  function Reserved(n: nat): (pins: seq<nat>)
    ensures |pins| == NPAGE
  {
    seq(NPAGE, p => if p < n then 1 else 0)
  }

  // LIST_INSERT_HEAD(&page_free_list, p, pp_link).
  method ListInsertHead(mm: Memory, p: int)
    requires 0 <= p < mm.pages.Length && (mm.first == NULL || 0 <= mm.first < mm.pages.Length)
    modifies mm`first, mm.pages
    ensures mm.pages[..] == Inserted(old(mm.pages[..]), old(mm.first), p) && mm.first == p
  {
    mm.pages[p] := mm.pages[p].(next := mm.first);
    if mm.first != NULL {
      mm.pages[mm.first] := mm.pages[mm.first].(prev := NextOf(p));
    }
    mm.first := p;
    mm.pages[p] := mm.pages[p].(prev := Head);
  }

  // LIST_REMOVE(p, pp_link).
  method ListRemove(mm: Memory, p: int)
    requires 0 <= p < mm.pages.Length
    requires mm.pages[p].next == NULL || 0 <= mm.pages[p].next < mm.pages.Length
    requires mm.pages[p].prev.NextOf? ==> 0 <= mm.pages[p].prev.page < mm.pages.Length
    modifies mm`first, mm.pages
    ensures mm.pages[..] == Removed(old(mm.pages[..]), p) && mm.first == FirstAfter(old(mm.pages[..]), old(mm.first), p)
  {
    var next := mm.pages[p].next;
    var prev := mm.pages[p].prev;
    if next != NULL {
      mm.pages[next] := mm.pages[next].(prev := prev);
    }
    match prev {
      case Head => mm.first := next;
      case NextOf(o) => mm.pages[o] := mm.pages[o].(next := next);
      case Nowhere =>
    }
  }

  // page_alloc: a cleared page, unless there is no free one.
  method PageAlloc(mm: Memory) returns (ok: bool, p: int)
    requires mm.Valid()
    modifies mm, mm.pages, mm.frames
    ensures mm.Valid() && ok == (old(mm.book.free) != [])
    ensures ok ==>
      && IsPage(p) && p == old(mm.book.free[0])
      && mm.book == old(mm.book).(free := old(mm.book.free[1..])) && mm.Now() == Allocated(old(mm.Now()))
    ensures !ok ==> mm.Now() == old(mm.Now()) && mm.book == old(mm.book)
  {
    hide TablesOk, RefOk;
    ghost var m, b := mm.Now(), mm.book;
    FirstIsPage(m.pages, m.first, b.free);
    if mm.first == NULL {
      return false, NULL;
    }
    AllocKeepsInv(m, b);
    assert LinkedAt(m.pages, b.free, 0);
    if |b.free| > 1 {
      assert LinkedAt(m.pages, b.free, 1);
    }
    p := mm.first;
    mm.frames[p] := ZeroFrame();
    ListRemove(mm, p);
    mm.book := b.(free := b.free[1..]);
    assert mm.Now() == Allocated(m);
    return true, p;
  }

  // page_free.
  method PageFree(mm: Memory, p: int)
    requires 0 <= p < mm.pages.Length && (mm.first == NULL || 0 <= mm.first < mm.pages.Length)
    modifies mm`first, mm.pages
    ensures mm.Now() == Freed(old(mm.Now()), p)
  {
    if mm.pages[p].ref > 0 {
      return;
    }
    ListInsertHead(mm, p);
  }

  // page_decref.
  method PageDecref(mm: Memory, p: int)
    requires 0 <= p < mm.pages.Length && (mm.first == NULL || 0 <= mm.first < mm.pages.Length)
    modifies mm`first, mm.pages
    ensures mm.Now() == Dropped(old(mm.Now()), p)
  {
    mm.pages[p] := mm.pages[p].(ref := (mm.pages[p].ref + 0xFFFF) % 0x1_0000);
    assert mm.Now() == Unreferred(old(mm.Now()), p);
    if mm.pages[p].ref == 0 {
      PageFree(mm, p);
    }
  }

  // pgdir_walk: the table for va in directory d, NULL when there is none and none is to be made.
  // False when the memory for one is lacking.
  method PgdirWalk(mm: Memory, d: int, va: u32, create: bool) returns (ok: bool, t: int)
    requires mm.Valid() && d in mm.book.dirs && Pdx(va) < OWNPDX
    modifies mm, mm.pages, mm.frames
    ensures mm.Valid()
    ensures var b, s := old(mm.book), InDir(d, Pdx(va));
      if s in b.entries then ok && t == b.entries[s] && mm.Now() == old(mm.Now()) && mm.book == b
      else if create && b.free != [] then
        ok && t == b.free[0] && mm.book == b.(free := b.free[1..], entries := b.entries[s := t])
        && IsPage(t) && mm.frames[t] == ZeroFrame() && RefsGrow(old(mm.Now()), mm.Now(), t)
      else ok == !create && t == NULL && mm.Now() == old(mm.Now()) && mm.book == b
    ensures InDir(d, Pdx(va)) in mm.book.entries ==> t == mm.book.entries[InDir(d, Pdx(va))] && IsPage(t)
    ensures create && ok ==>
      t != NULL && t != d && IsPage(d) && mm.frames[..] ==
        if InDir(d, Pdx(va)) in old(mm.book.entries) then old(mm.frames[..])
        else WithNewTable(old(mm.frames[..]), d, Pdx(va), t)
  {
    hide TablesOk, RefOk, Linked;
    ghost var m, b := mm.Now(), mm.book;
    var i := Pdx(va);
    DirIs(m, b, d, i);
    if InDir(d, i) in b.entries {
      TableIsNoDir(m, b, d, i);
    }
    t := PageOf(mm.frames[d][i]);
    if !IsValid(mm.frames[d][i]) {
      if !create {
        return true, NULL;
      }
      ok, t := PageAlloc(mm);
      if !ok {
        return false, NULL;
      }
      NewTable(m, b, d, i, t);
      mm.frames[d] := mm.frames[d][i := Entry(t, PTE_R)];
      mm.pages[t] := mm.pages[t].(ref := (mm.pages[t].ref + 1) % 0x1_0000);
      assert mm.Now() == WithTable(Allocated(m), d, i, t);
      mm.book := mm.book.(entries := mm.book.entries[InDir(d, i) := t]);
    } else {
      TableIsPage(m, b, d, i);
    }
    ok := true;
  }

  // A cleared page t as a table, named by entry i of directory d as valid and writable.
  ghost function WithNewTable(f: seq<Frame>, d: int, i: nat, t: int): (g: seq<Frame>)
    requires |f| == NPAGE && IsPage(d) && IsPage(t) && d != t && i < PTE2PT
    ensures |g| == NPAGE && (forall k :: 0 <= k < PTE2PT ==> g[t][k] == 0)
    ensures g[d][i] == t * 0x1000 + 0x600 && forall k :: 0 <= k < PTE2PT && k != i ==> g[d][k] == f[d][k]
    ensures forall q :: 0 <= q < NPAGE && q != t && q != d ==> g[q] == f[q]
  {
    f[t := ZeroFrame()][d := f[d][i := Entry(t, PTE_R)]]
  }

  // The page that has become a table was no directory.
  lemma TableIsNoDir(m: Mem, b: Book, d: int, i: int)
    requires Inv(m, b) && d in b.dirs && InDir(d, i) in b.entries
    ensures b.entries[InDir(d, i)] != d && IsPage(d)
  {
    hide Linked, RefOk, DirOk, TableOk;
    assert SlotOk(b, InDir(d, i));
  }

  // Frames f with word k of page q replaced.
  ghost function WithWord(f: seq<Frame>, q: int, k: nat, w: u32): (g: seq<Frame>)
    requires 0 <= q < |f| && k < PTE2PT
    ensures |g| == |f| && g[q][k] == w
    ensures forall r, l :: 0 <= r < |f| && 0 <= l < PTE2PT && !(r == q && l == k) ==> g[r][l] == f[r][l]
  {
    f[q := f[q][k := w]]
  }

  lemma WordTwice(f: seq<Frame>, q: int, k: nat, w: u32)
    requires 0 <= q < |f| && k < PTE2PT
    ensures WithWord(WithWord(f, q, k, 0), q, k, w) == WithWord(f, q, k, w)
  {
    assert f[q][k := 0][k := w] == f[q][k := w];
  }

  // A word that names page p, with these permission bits and the valid bit in the low 12.
  predicate Spells(w: u32, p: int, perm: nat) {
    w as int / 0x1000 == p && w as int % 0x1000 == if perm / 0x200 % 2 == 1 then perm else perm + 0x200
  }

  lemma EntrySpells(p: nat, perm: nat)
    requires p < 0x10_0000 && perm < BY2PG
    ensures Spells(Entry(p, perm), p, perm)
  {
  }

  // Only page t is referred to more often.
  ghost predicate RefsGrow(m: Mem, n: Mem, t: int) {
    |m.pages| == |n.pages| && forall q :: 0 <= q < |m.pages| && q != t ==> n.pages[q].ref == m.pages[q].ref
  }

  lemma DirIs(m: Mem, b: Book, d: int, i: nat)
    requires Inv(m, b) && d in b.dirs && i < OWNPDX
    ensures IsPage(d) && |m.pages| == |m.frames| == NPAGE
    ensures IsValid(m.frames[d][i]) <==> InDir(d, i) in b.entries
    ensures IsValid(m.frames[d][i]) ==> PageOf(m.frames[d][i]) == b.entries[InDir(d, i)]
  {
    assert DirOk(m, b, d, i);
  }

  lemma TableIs(m: Mem, b: Book, d: int, i: int, j: nat)
    requires Inv(m, b) && InDir(d, i) in b.entries && j < PTE2PT
    ensures IsPage(b.entries[InDir(d, i)]) && |m.pages| == |m.frames| == NPAGE
    ensures var w := m.frames[b.entries[InDir(d, i)]][j];
      && (IsValid(w) <==> InTable(d, i, j) in b.entries)
      && (IsValid(w) ==> PageOf(w) == b.entries[InTable(d, i, j)])
  {
    TableIsPage(m, b, d, i);
    assert TableOk(m, b, d, i, j);
  }

  lemma NewTable(m: Mem, b: Book, d: int, i: nat, t: int)
    requires Inv(m, b) && d in b.dirs && i < OWNPDX && InDir(d, i) !in b.entries
    requires b.free != [] && t == b.free[0]
    ensures IsPage(d) && IsPage(t) && 0 <= m.first < |m.pages| && |m.frames| == |m.pages| == NPAGE && d != t
    ensures Inv(WithTable(Allocated(m), d, i, t), b.(free := b.free[1..], entries := b.entries[InDir(d, i) := t]))
    ensures RefsGrow(m, WithTable(Allocated(m), d, i, t), t)
    ensures WithTable(Allocated(m), d, i, t).frames[t] == ZeroFrame()
    ensures WithTable(Allocated(m), d, i, t).frames == WithNewTable(m.frames, d, i, t)
  {
    hide TablesOk, Linked, Removed;
    AllocKeepsInv(m, b);
    FreeIsUnused(m, b, t);
    DirIs(m, b, d, i);
    var n := Allocated(m);
    forall q | IsPage(q)
      ensures n.pages[q].ref == m.pages[q].ref
    {
      ListKeepsRefs(m.pages, m.first, t, q);
    }
    AddTableKeepsInv(n, b.(free := b.free[1..]), d, i, t);
  }

  // page_lookup: the page mapped at va and the table that maps it, NULL when there is none.
  method PageLookup(mm: Memory, d: int, va: u32) returns (p: int, t: int)
    requires mm.Valid() && d in mm.book.dirs && Pdx(va) < OWNPDX
    modifies mm, mm.pages, mm.frames
    ensures mm.Valid() && mm.Now() == old(mm.Now()) && mm.book == old(mm.book)
    ensures p == MappedAt(mm.book.entries, d, va)
    ensures p != NULL ==> InDir(d, Pdx(va)) in mm.book.entries && t == mm.book.entries[InDir(d, Pdx(va))]
  {
    hide TablesOk, RefOk, Linked;
    var ok;
    ok, t := PgdirWalk(mm, d, va, false);
    if t == NULL {
      NoTableNoPage(mm.Now(), mm.book, d, va);
      return NULL, t;
    }
    TableIs(mm.Now(), mm.book, d, Pdx(va), Ptx(va));
    if !IsValid(mm.frames[t][Ptx(va)]) {
      return NULL, t;
    }
    p := PageOf(mm.frames[t][Ptx(va)]);
  }

  // The page that directory d maps at va, NULL when there is none: what the tables are for.
  function MappedAt(e: map<Slot, int>, d: int, va: u32): int {
    var s := InTable(d, Pdx(va), Ptx(va));
    if s in e then e[s] else NULL
  }

  lemma NoTableNoPage(m: Mem, b: Book, d: int, va: u32)
    requires Inv(m, b) && InDir(d, Pdx(va)) !in b.entries
    ensures MappedAt(b.entries, d, va) == NULL
  {
    var s := InTable(d, Pdx(va), Ptx(va));
    assert s in b.entries ==> SlotOk(b, s);
  }

  // va2pa: the physical address that the words of the tables give for va, all ones when one of them
  // is not valid. In memory that is in order, that is the address of the mapped page.
  method Va2pa(mm: Memory, d: int, va: u32) returns (pa: u32)
    requires mm.frames.Length == NPAGE && IsPage(d)
    requires IsValid(mm.frames[d][Pdx(va)]) ==> IsPage(PageOf(mm.frames[d][Pdx(va)]))
    ensures pa == Translated(mm.frames[..], d, va)
    ensures mm.Valid() && d in mm.book.dirs && Pdx(va) < OWNPDX ==>
      var p := MappedAt(mm.book.entries, d, va);
      pa == if p == NULL then ALL_ONES else p * BY2PG + va as int % BY2PG
  {
    hide TablesOk, RefOk, Linked;
    if !IsValid(mm.frames[d][Pdx(va)]) {
      pa := ALL_ONES;
    } else {
      var t := PageOf(mm.frames[d][Pdx(va)]);
      pa := if !IsValid(mm.frames[t][Ptx(va)]) then ALL_ONES
            else PageOf(mm.frames[t][Ptx(va)]) * BY2PG + va as int % BY2PG;
    }
    if mm.Valid() && d in mm.book.dirs && Pdx(va) < OWNPDX {
      TranslatedIsMapped(mm.Now(), mm.book, d, va);
    }
  }

  function Translated(frames: seq<Frame>, d: int, va: u32): u32
    requires |frames| == NPAGE && IsPage(d)
    requires IsValid(frames[d][Pdx(va)]) ==> IsPage(PageOf(frames[d][Pdx(va)]))
  {
    var w := frames[d][Pdx(va)];
    if !IsValid(w) || !IsValid(frames[PageOf(w)][Ptx(va)]) then ALL_ONES
    else PageOf(frames[PageOf(w)][Ptx(va)]) * BY2PG + va as int % BY2PG
  }

  lemma TranslatedIsMapped(m: Mem, b: Book, d: int, va: u32)
    requires Inv(m, b) && d in b.dirs && Pdx(va) < OWNPDX
    ensures |m.frames| == NPAGE && IsPage(d)
    ensures IsValid(m.frames[d][Pdx(va)]) ==> IsPage(PageOf(m.frames[d][Pdx(va)]))
    ensures var p := MappedAt(b.entries, d, va);
      Translated(m.frames, d, va) == if p == NULL then ALL_ONES else p * BY2PG + va as int % BY2PG
  {
    hide TablesOk, RefOk, Linked;
    DirIs(m, b, d, Pdx(va));
    if !IsValid(m.frames[d][Pdx(va)]) {
      NoTableNoPage(m, b, d, va);
    } else {
      TableIs(m, b, d, Pdx(va), Ptx(va));
      if IsValid(m.frames[PageOf(m.frames[d][Pdx(va)])][Ptx(va)]) {
        EntryIsPage(m, b, InTable(d, Pdx(va), Ptx(va)));
      }
    }
  }

  lemma EntryIsPage(m: Mem, b: Book, s: Slot)
    requires Inv(m, b) && s in b.entries
    ensures IsPage(b.entries[s])
  {
    assert SlotOk(b, s);
  }

  // page_remove: unmaps va, and frees the page if that was the last reference to it.
  method PageRemove(mm: Memory, d: int, va: u32)
    requires mm.Valid() && d in mm.book.dirs && Pdx(va) < OWNPDX
    modifies mm, mm.pages, mm.frames
    ensures mm.Valid()
    ensures mm.book == Unmapped(old(mm.Now()), old(mm.book), d, va)
    ensures MappedAt(old(mm.book.entries), d, va) == NULL ==> mm.Now() == old(mm.Now())
    ensures MappedAt(old(mm.book.entries), d, va) != NULL ==>
      var t := old(mm.book.entries)[InDir(d, Pdx(va))];
      IsPage(t) && mm.frames[..] == WithWord(old(mm.frames[..]), t, Ptx(va), 0)
    ensures forall q :: IsPage(q) && q != MappedAt(old(mm.book.entries), d, va) ==> mm.pages[q].ref == old(mm.pages[q].ref)
  {
    hide TablesOk, RefOk, Linked;
    ghost var m, b := mm.Now(), mm.book;
    var p, t := PageLookup(mm, d, va);
    if p == NULL {
      return;
    }
    RemoveEntryKeepsInv(m, b, d, Pdx(va), Ptx(va));
    TableIsPage(m, b, d, Pdx(va));
    PageDecref(mm, p);
    mm.frames[t] := mm.frames[t][Ptx(va) := 0];
    assert mm.Now() == WithoutEntry(m, t, Ptx(va), p);
    mm.book := BookWithout(m, b, InTable(d, Pdx(va), Ptx(va)));
    forall q | IsPage(q) && q != p
      ensures mm.pages[q].ref == old(mm.pages[q].ref)
    {
      assert mm.pages[q] == mm.Now().pages[q];
      DropKeepsOtherRefs(m, p, q);
    }
  }

  lemma DropKeepsOtherRefs(m: Mem, p: int, q: int)
    requires 0 <= p < |m.pages| && 0 <= q < |m.pages| && p != q && (m.first == NULL || 0 <= m.first < |m.pages|)
    ensures Dropped(m, p).pages[q].ref == m.pages[q].ref
  {
    ListKeepsRefs(Unreferred(m, p).pages, m.first, p, q);
  }

  // The books after va has been unmapped.
  function Unmapped(m: Mem, b: Book, d: int, va: u32): Book {
    var s := InTable(d, Pdx(va), Ptx(va));
    if s in b.entries && 0 <= b.entries[s] < |m.pages| then BookWithout(m, b, s) else b
  }

  // The books after page p has been mapped at va; as they were when the table for it is missing and
  // cannot be made.
  function Mapped(m: Mem, b: Book, d: int, va: u32, p: int): Book {
    var s := InTable(d, Pdx(va), Ptx(va));
    if s in b.entries && b.entries[s] == p then b
    else if s in b.entries then
      var c := Unmapped(m, b, d, va);
      c.(entries := c.entries[s := p])
    else if InDir(d, Pdx(va)) in b.entries then b.(entries := b.entries[s := p])
    else if b.free != [] then
      b.(free := b.free[1..], entries := b.entries[InDir(d, Pdx(va)) := b.free[0]][s := p])
    else b
  }

  ghost predicate HasRoom(b: Book, d: int, va: u32) {
    InDir(d, Pdx(va)) in b.entries || b.free != []
  }

  // From frames f to frames g no word has changed but word j of table t, apart from that table when it has
  // been made and the entry of directory d that names it.
  ghost predicate OnlyEntry(f: seq<Frame>, g: seq<Frame>, d: int, i: nat, t: int, made: bool, j: nat)
    requires IsPage(d) && IsPage(t) && i < PTE2PT
  {
    && |f| == |g| == NPAGE
    && forall q, k :: 0 <= q < NPAGE && 0 <= k < PTE2PT && !(q == t && k == j) ==>
      g[q][k] == if made && q == t then 0 else if made && q == d && k == i then t * 0x1000 + 0x600 else f[q][k]
  }

  lemma EntryIsOnly(f: seq<Frame>, g: seq<Frame>, h: seq<Frame>, d: int, i: nat, t: int, made: bool, j: nat)
    requires IsPage(d) && IsPage(t) && d != t && i < PTE2PT && j < PTE2PT && |f| == |g| == |h| == NPAGE
    requires g == if made then WithNewTable(f, d, i, t) else f
    requires forall q, k :: 0 <= q < NPAGE && 0 <= k < PTE2PT && !(q == t && k == j) ==> h[q][k] == g[q][k]
    ensures OnlyEntry(f, h, d, i, t, made, j)
  {
    hide WithNewTable;
  }

  // page_insert: maps page p at va; false when there is no memory for a table.
  method PageInsert(mm: Memory, d: int, p: int, va: u32, perm: nat) returns (ok: bool)
    requires mm.Valid() && d in mm.book.dirs && Pdx(va) < OWNPDX && perm < BY2PG
    requires IsPage(p) && p !in mm.book.free && mm.pages[p].ref < 0xFFFF
    modifies mm, mm.pages, mm.frames
    ensures mm.Valid() && ok == HasRoom(old(mm.book), d, va)
    ensures mm.book == Mapped(old(mm.Now()), old(mm.book), d, va, p)
    ensures !ok ==> mm.Now() == old(mm.Now())
    ensures ok ==>
      && InDir(d, Pdx(va)) in mm.book.entries
      && var t := mm.book.entries[InDir(d, Pdx(va))];
        && IsPage(t) && IsPage(d) && t != d && Spells(mm.frames[t][Ptx(va)], p, perm)
        && OnlyEntry(old(mm.frames[..]), mm.frames[..], d, Pdx(va), t, InDir(d, Pdx(va)) !in old(mm.book.entries), Ptx(va))
  {
    hide TablesOk, RefOk, Linked, Spells, OnlyEntry, Entry;
    ghost var m, b := mm.Now(), mm.book;
    var j := Ptx(va);
    var walked, t := PgdirWalk(mm, d, va, true);
    NoPageWithoutTable(m, b, d, va);
    if t == NULL {
      return false;
    }
    ghost var n, c := mm.Now(), mm.book;
    NotFreed(b, c, p);
    TableIs(n, c, d, Pdx(va), j);
    EntrySpells(p, perm);
    if IsValid(mm.frames[t][j]) && PageOf(mm.frames[t][j]) == p {
      SetAgainKeepsInv(n, c, d, Pdx(va), j, perm);
      mm.pages[p] := mm.pages[p].(ref := (mm.pages[p].ref + 0xFFFF) % 0x1_0000);
      mm.frames[t] := mm.frames[t][j := Entry(p, perm)];
      mm.pages[p] := mm.pages[p].(ref := (mm.pages[p].ref + 1) % 0x1_0000);
      assert mm.Now() == WordSet(n, t, j, Entry(p, perm));
    } else {
      if IsValid(mm.frames[t][j]) {
        PageRemove(mm, d, va);
        NotFreedByRemoval(n, c, d, va, p);
      }
      SetEntry(mm, d, va, t, p, perm);
    }
    EntryIsOnly(m.frames, n.frames, mm.frames[..], d, Pdx(va), t, InDir(d, Pdx(va)) !in b.entries, j);
    ok := true;
  }

  // The end of page_insert: stores the entry and counts the reference.
  method SetEntry(mm: Memory, d: int, va: u32, t: int, p: int, perm: nat)
    requires mm.Valid() && InDir(d, Pdx(va)) in mm.book.entries && t == mm.book.entries[InDir(d, Pdx(va))]
    requires InTable(d, Pdx(va), Ptx(va)) !in mm.book.entries && perm < BY2PG
    requires IsPage(p) && p !in mm.book.free && mm.pages[p].ref < 0xFFFF
    modifies mm`book, mm.pages, mm.frames
    ensures mm.Valid()
    ensures mm.book == old(mm.book).(entries := old(mm.book.entries)[InTable(d, Pdx(va), Ptx(va)) := p])
    ensures IsPage(t) && Spells(mm.frames[t][Ptx(va)], p, perm)
    ensures mm.frames[..] == WithWord(old(mm.frames[..]), t, Ptx(va), mm.frames[t][Ptx(va)])
  {
    hide TablesOk, RefOk, Linked, Spells, Entry;
    ghost var u, e := mm.Now(), mm.book;
    var j := Ptx(va);
    TableIsPage(u, e, d, Pdx(va));
    EntrySpells(p, perm);
    AddEntryKeepsInv(u, e, d, Pdx(va), j, p, perm);
    mm.frames[t] := mm.frames[t][j := Entry(p, perm)];
    mm.pages[p] := mm.pages[p].(ref := (mm.pages[p].ref + 1) % 0x1_0000);
    assert mm.Now() == WithEntry(u, t, j, p, perm);
    mm.book := e.(entries := e.entries[InTable(d, Pdx(va), j) := p]);
  }

  lemma NoPageWithoutTable(m: Mem, b: Book, d: int, va: u32)
    requires Inv(m, b)
    ensures InTable(d, Pdx(va), Ptx(va)) in b.entries ==> InDir(d, Pdx(va)) in b.entries
  {
    var s := InTable(d, Pdx(va), Ptx(va));
    assert s in b.entries ==> SlotOk(b, s);
  }

  lemma NotFreed(b: Book, c: Book, p: int)
    requires p !in b.free && (c.free == b.free || (b.free != [] && c.free == b.free[1..]))
    ensures p !in c.free
  {
  }

  lemma NotFreedByRemoval(m: Mem, b: Book, d: int, va: u32, p: int)
    requires Inv(m, b) && p !in b.free && MappedAt(b.entries, d, va) != p
    ensures p !in Unmapped(m, b, d, va).free && InTable(d, Pdx(va), Ptx(va)) !in Unmapped(m, b, d, va).entries
  {
    hide Linked, TablesOk;
    var s := InTable(d, Pdx(va), Ptx(va));
    if s in b.entries {
      EntryIsPage(m, b, s);
    }
  }

  // ----- a partial map from virtual to physical pages

  // page_insert changes the map at one virtual page of one space, and nowhere else.
  lemma InsertIsUpdate(m: Mem, b: Book, d: int, va: u32, p: int, e: int, vb: u32)
    requires Inv(m, b) && HasRoom(b, d, va)
    ensures MappedAt(Mapped(m, b, d, va, p).entries, e, vb) ==
      if e == d && Vpn(vb) == Vpn(va) then p else MappedAt(b.entries, e, vb)
  {
    VpnIsIndices(va, vb);
    NoPageWithoutTable(m, b, d, va);
    var s := InTable(d, Pdx(va), Ptx(va));
    if s in b.entries {
      EntryIsPage(m, b, s);
    }
  }

  // A failed page_insert changes no mapping.
  lemma FailedInsert(m: Mem, b: Book, d: int, va: u32, p: int)
    requires Inv(m, b) && !HasRoom(b, d, va)
    ensures Mapped(m, b, d, va, p) == b
  {
    NoPageWithoutTable(m, b, d, va);
  }

  lemma RemoveIsUpdate(m: Mem, b: Book, d: int, va: u32, e: int, vb: u32)
    requires Inv(m, b)
    ensures MappedAt(Unmapped(m, b, d, va).entries, e, vb) ==
      if e == d && Vpn(vb) == Vpn(va) then NULL else MappedAt(b.entries, e, vb)
  {
    VpnIsIndices(va, vb);
    var s := InTable(d, Pdx(va), Ptx(va));
    if s in b.entries {
      EntryIsPage(m, b, s);
    }
  }
}
