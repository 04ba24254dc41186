// Physical memory with its page descriptors, the two-level page tables laid out in it, and the
// bookkeeping that ties reference counts, tables and the free list together.
module PageTables {
  import opened Words
  import opened PageList

  const NPAGE := 64000          // physical pages
  const PTE2PT := 1024          // entries of a table
  const BY2PG := 4096
  const UPDX := 508             // PDX(UTOP): entries below it map the user's part of a space
  const OWNPDX := 509           // PDX(UENVS): entries from it on are the kernel's, the same in all spaces
  const PTE_V := 0x200
  const PTE_R := 0x400

  type Frame = f: seq<u32> | |f| == PTE2PT witness seq(PTE2PT, _ => 0)

  function ZeroFrame(): (f: Frame)
    ensures forall j :: 0 <= j < PTE2PT ==> f[j] == 0
  {
    seq<u32>(PTE2PT, _ => 0)
  }

  function Pdx(va: u32): (i: nat)
    ensures i < PTE2PT
  {
    va as int / 0x40_0000
  }

  function Ptx(va: u32): (j: nat)
    ensures j < PTE2PT
  {
    va as int / BY2PG % PTE2PT
  }

  function Vpn(va: u32): nat {
    va as int / BY2PG
  }

  // The number of a virtual page is its two indices.
  lemma VpnIsIndices(va: u32, vb: u32)
    ensures Vpn(va) == Vpn(vb) <==> Pdx(va) == Pdx(vb) && Ptx(va) == Ptx(vb)
  {
    assert Vpn(va) == PTE2PT * Pdx(va) + Ptx(va) && Vpn(vb) == PTE2PT * Pdx(vb) + Ptx(vb);
  }

  predicate IsValid(w: u32) {
    w as int / PTE_V % 2 == 1
  }

  // The page that an entry names.
  function PageOf(w: u32): nat {
    w as int / BY2PG
  }

  // perm | PTE_V
  function WithV(perm: nat): (r: nat)
    requires perm < BY2PG
    ensures r < BY2PG && r / PTE_V % 2 == 1
  {
    var h := perm / PTE_V;
    assert h < 8 && perm == h * PTE_V + perm % PTE_V;
    if h % 2 == 1 then perm else
      assert h <= 6 && (perm + PTE_V) / PTE_V == h + 1;
      perm + PTE_V
  }

  // An entry: page address with permission bits and PTE_V.
  function Entry(p: nat, perm: nat): (w: u32)
    requires p < 0x10_0000 && perm < BY2PG
  {
    p * BY2PG + WithV(perm)
  }

  lemma EntryNames(p: nat, perm: nat)
    requires p < 0x10_0000 && perm < BY2PG
    ensures IsValid(Entry(p, perm)) && PageOf(Entry(p, perm)) == p
  {
    hide WithV;
    var x := WithV(perm);
    assert Entry(p, perm) == PTE_V * (8 * p + x / PTE_V) + x % PTE_V;
    assert (8 * p + x / PTE_V) % 2 == x / PTE_V % 2;
  }

  // ----- the memory and its books

  datatype Mem = Mem(pages: seq<Page>, first: int, frames: seq<Frame>)

  // The places that name a page: entry i of directory d, or entry j of the table there.
  datatype Slot = InDir(d: int, i: int) | InTable(d: int, i: int, j: int)

  // The free pages in list order, the page directories, what each entry in use names, and how often
  // a page is held other than by an entry.
  datatype Book = Book(free: seq<int>, dirs: set<int>, entries: map<Slot, int>, pins: seq<nat>)

  ghost function Naming(e: map<Slot, int>, p: int): set<Slot> {
    set s | s in e && e[s] == p
  }

  // How many entries name page p.
  ghost function Count(e: map<Slot, int>, p: int): nat {
    |Naming(e, p)|
  }

  lemma CountOfNew(e: map<Slot, int>, s: Slot, p: int, q: int)
    requires s !in e
    ensures Count(e[s := p], q) == Count(e, q) + if p == q then 1 else 0
  {
    if p == q {
      assert Naming(e[s := p], q) == Naming(e, q) + {s};
    } else {
      assert Naming(e[s := p], q) == Naming(e, q);
    }
  }

  lemma CountOfGone(e: map<Slot, int>, s: Slot, q: int)
    requires s in e
    ensures Count(e - {s}, q) == Count(e, q) - if e[s] == q then 1 else 0
  {
    if e[s] == q {
      assert Naming(e - {s}, q) == Naming(e, q) - {s};
    } else {
      assert Naming(e - {s}, q) == Naming(e, q);
    }
  }

  predicate IsPage(p: int) {
    0 <= p < NPAGE
  }

  ghost predicate SizesOk(m: Mem, b: Book) {
    |m.pages| == |m.frames| == |b.pins| == NPAGE
  }

  // The count of page p is what names it and what holds it.
  ghost predicate RefOk(m: Mem, b: Book, p: int)
    requires SizesOk(m, b) && IsPage(p)
  {
    m.pages[p].ref == b.pins[p] + Count(b.entries, p) < 0x1_0000
  }

  // The word of directory d at i is the one that the books say.
  ghost predicate DirOk(m: Mem, b: Book, d: int, i: int)
    requires SizesOk(m, b) && IsPage(d) && 0 <= i < OWNPDX
  {
    var w := m.frames[d][i];
    (InDir(d, i) in b.entries <==> IsValid(w)) && (IsValid(w) ==> b.entries[InDir(d, i)] == PageOf(w))
  }

  ghost predicate TableOk(m: Mem, b: Book, d: int, i: int, j: int)
    requires SizesOk(m, b) && InDir(d, i) in b.entries && IsPage(b.entries[InDir(d, i)]) && 0 <= j < PTE2PT
  {
    var w := m.frames[b.entries[InDir(d, i)]][j];
    (InTable(d, i, j) in b.entries <==> IsValid(w)) && (IsValid(w) ==> b.entries[InTable(d, i, j)] == PageOf(w))
  }

  // An entry in use is at a place that exists, and names a page.
  ghost predicate SlotOk(b: Book, s: Slot)
    requires s in b.entries
  {
    && IsPage(b.entries[s])
    && match s
       case InDir(d, i) => d in b.dirs && 0 <= i < OWNPDX && b.entries[s] !in b.dirs
       case InTable(d, i, j) => InDir(d, i) in b.entries && 0 <= j < PTE2PT
  }

  // A table belongs to one entry of one directory.
  ghost predicate OneTable(b: Book, s: Slot, t: Slot)
    requires s in b.entries && t in b.entries
  {
    s.InDir? && t.InDir? && b.entries[s] == b.entries[t] ==> s == t
  }

  ghost predicate TablesOk(m: Mem, b: Book)
    requires SizesOk(m, b)
  {
    && (forall d :: d in b.dirs ==> IsPage(d) && b.pins[d] > 0)
    && (forall s :: s in b.entries ==> SlotOk(b, s))
    && (forall s, t :: s in b.entries && t in b.entries ==> OneTable(b, s, t))
    && (forall d, i :: d in b.dirs && 0 <= i < OWNPDX ==> DirOk(m, b, d, i))
    && (forall d, i, j :: InDir(d, i) in b.entries && 0 <= j < PTE2PT ==> TableOk(m, b, d, i, j))
  }

  // Everything agrees: counts with entries and holds, tables with the books, and the free list with
  // the pages that nobody refers to.
  ghost predicate Inv(m: Mem, b: Book) {
    && SizesOk(m, b)
    && Linked(m.pages, m.first, b.free)
    && (forall p :: IsPage(p) ==> RefOk(m, b, p))
    && (forall p :: p in b.free ==> IsFree(m, p))
    && TablesOk(m, b)
  }

  ghost predicate IsFree(m: Mem, p: int) {
    0 <= p < |m.pages| && m.pages[p].ref == 0
  }

  // ----- allocating and freeing

  function Allocated(m: Mem): (n: Mem)
    ensures |n.pages| == |m.pages| && |n.frames| == |m.frames|
  {
    if 0 <= m.first < |m.pages| && |m.frames| == |m.pages|
    then Mem(Removed(m.pages, m.first), FirstAfter(m.pages, m.first, m.first), m.frames[m.first := ZeroFrame()])
    else m
  }

  lemma FreeIsUnused(m: Mem, b: Book, p: int)
    requires Inv(m, b) && p in b.free
    ensures IsPage(p) && m.pages[p].ref == 0 && b.pins[p] == 0 && Naming(b.entries, p) == {} && p !in b.dirs
    ensures forall s :: s in b.entries ==> b.entries[s] != p
  {
    assert IsFree(m, p) && RefOk(m, b, p);
    assert |Naming(b.entries, p)| == 0;
    forall s | s in b.entries
      ensures b.entries[s] != p
    {
      assert s in Naming(b.entries, p) || b.entries[s] != p;
    }
  }

  // The contents of a page that is neither a directory nor a table do not matter to the tables.
  lemma OtherFrame(m: Mem, b: Book, n: Mem, p: int)
    requires SizesOk(m, b) && SizesOk(n, b) && TablesOk(m, b) && IsPage(p) && p !in b.dirs
    requires forall s :: s in b.entries && s.InDir? ==> b.entries[s] != p
    requires forall q :: IsPage(q) && q != p ==> n.frames[q] == m.frames[q]
    ensures TablesOk(n, b)
  {
    forall d, i | d in b.dirs && 0 <= i < OWNPDX
      ensures DirOk(n, b, d, i)
    {
      assert DirOk(m, b, d, i);
    }
    forall d, i, j | InDir(d, i) in b.entries && 0 <= j < PTE2PT
      ensures TableOk(n, b, d, i, j)
    {
      assert SlotOk(b, InDir(d, i)) && TableOk(m, b, d, i, j);
    }
  }

  lemma FirstIsFree(m: Mem, b: Book)
    requires Inv(m, b) && b.free != []
    ensures m.first == b.free[0] && IsPage(m.first) && m.first !in b.free[1..]
  {
    hide TablesOk;
    assert LinkedAt(m.pages, b.free, 0);
  }

  // page_alloc takes the first free page, cleared, and keeps everything in order.
  lemma AllocKeepsInv(m: Mem, b: Book)
    requires Inv(m, b) && b.free != []
    ensures m.first == b.free[0] && IsPage(m.first)
    ensures Inv(Allocated(m), b.(free := b.free[1..]))
    ensures Allocated(m).frames[m.first] == ZeroFrame() && m.first !in b.free[1..]
  {
    hide TablesOk, Removed, Linked;
    FirstIsFree(m, b);
    var p, n, c := m.first, Allocated(m), b.(free := b.free[1..]);
    RemoveTakesOut(m.pages, m.first, b.free, 0);
    assert b.free[..0] + b.free[1..] == b.free[1..];
    FreeIsUnused(m, b, p);
    OtherFrame(m, b, n, p);
    forall q | IsPage(q)
      ensures RefOk(n, c, q)
    {
      assert RefOk(m, b, q);
      ListKeepsRefs(m.pages, m.first, p, q);
    }
    forall q | q in c.free
      ensures IsFree(n, q)
    {
      assert q in b.free && IsFree(m, q);
      ListKeepsRefs(m.pages, m.first, p, q);
    }
    SameTables(n, b, c);
  }

  // The tables do not depend on the free list.
  lemma SameTables(m: Mem, b: Book, c: Book)
    requires SizesOk(m, b) && TablesOk(m, b) && c == b.(free := c.free)
    ensures TablesOk(m, c)
  {
    forall s | s in c.entries
      ensures SlotOk(c, s)
    {
      assert SlotOk(b, s);
    }
    forall s, t | s in c.entries && t in c.entries
      ensures OneTable(c, s, t)
    {
      assert OneTable(b, s, t);
    }
    forall d, i | d in c.dirs && 0 <= i < OWNPDX
      ensures DirOk(m, c, d, i)
    {
      assert DirOk(m, b, d, i);
    }
    forall d, i, j | InDir(d, i) in c.entries && 0 <= j < PTE2PT
      ensures TableOk(m, c, d, i, j)
    {
      assert SlotOk(b, InDir(d, i)) && TableOk(m, b, d, i, j);
    }
  }

  // ----- counting references

  // pp_ref is 16 bits wide.
  function Referred(m: Mem, p: int): (n: Mem)
    requires 0 <= p < |m.pages|
    ensures |n.pages| == |m.pages|
  {
    m.(pages := m.pages[p := m.pages[p].(ref := (m.pages[p].ref + 1) % 0x1_0000)])
  }

  function Unreferred(m: Mem, p: int): (n: Mem)
    requires 0 <= p < |m.pages|
    ensures |n.pages| == |m.pages|
  {
    m.(pages := m.pages[p := m.pages[p].(ref := (m.pages[p].ref + 0xFFFF) % 0x1_0000)])
  }

  // page_free.
  function Freed(m: Mem, p: int): (n: Mem)
    requires 0 <= p < |m.pages| && (m.first == NULL || 0 <= m.first < |m.pages|)
    ensures |n.pages| == |m.pages|
  {
    if m.pages[p].ref > 0 then m else m.(pages := Inserted(m.pages, m.first, p), first := p)
  }

  // page_decref.
  function Dropped(m: Mem, p: int): (n: Mem)
    requires 0 <= p < |m.pages| && (m.first == NULL || 0 <= m.first < |m.pages|)
    ensures |n.pages| == |m.pages|
  {
    var n := Unreferred(m, p);
    if n.pages[p].ref == 0 then Freed(n, p) else n
  }

  function WordSet(m: Mem, f: int, k: nat, w: u32): (n: Mem)
    requires 0 <= f < |m.frames| && k < PTE2PT
    ensures |n.frames| == |m.frames|
  {
    m.(frames := m.frames[f := m.frames[f][k := w]])
  }

  // The free list once page p has lost a reference.
  function FreeAfterDrop(m: Mem, b: Book, p: int): seq<int>
    requires 0 <= p < |m.pages|
  {
    if m.pages[p].ref == 1 then [p] + b.free else b.free
  }

  // The descriptors after a reference to p has been dropped and the count of p in the books has gone
  // down by one.
  lemma DropKeepsCounts(m: Mem, b: Book, n: Mem, c: Book, p: int)
    requires Inv(m, b) && IsPage(p) && m.pages[p].ref > 0 && SizesOk(n, c)
    requires m.first == NULL || 0 <= m.first < |m.pages|
    requires n == Dropped(m, p).(frames := n.frames)
    requires c.free == FreeAfterDrop(m, b, p)
    requires forall q :: IsPage(q) ==> Held(c, q) == Held(b, q) - if q == p then 1 else 0
    ensures Linked(n.pages, n.first, c.free)
    ensures forall q :: IsPage(q) ==> RefOk(n, c, q)
    ensures forall q :: q in c.free ==> IsFree(n, q)
  {
    hide TablesOk, Linked, Inserted;
    DropKeepsList(m, b, p);
    forall q | IsPage(q)
      ensures RefOk(n, c, q) && (q in c.free ==> IsFree(n, q))
    {
      assert Held(c, q) == Held(b, q) - if q == p then 1 else 0;
      DropKeepsCount(m, b, n, c, p, q);
    }
    forall q | q in c.free
      ensures IsPage(q)
    {
      if q in b.free {
        assert IsFree(m, q);
      }
    }
  }

  lemma DropKeepsList(m: Mem, b: Book, p: int)
    requires Inv(m, b) && IsPage(p) && m.pages[p].ref > 0
    requires m.first == NULL || 0 <= m.first < |m.pages|
    ensures Linked(Dropped(m, p).pages, Dropped(m, p).first, FreeAfterDrop(m, b, p))
  {
    hide TablesOk, Linked, Inserted;
    assert RefOk(m, b, p);
    var ref := m.pages[p].ref - 1;
    assert p !in b.free by {
      assert p in b.free ==> IsFree(m, p);
    }
    var u := Unreferred(m, p);
    assert u.pages == m.pages[p := m.pages[p].(ref := ref)];
    RefsDoNotMatter(m.pages, m.first, b.free, p, ref);
    if ref == 0 {
      InsertPutsFirst(u.pages, u.first, b.free, p);
    }
  }

  lemma DropKeepsCount(m: Mem, b: Book, n: Mem, c: Book, p: int, q: int)
    requires Inv(m, b) && IsPage(p) && IsPage(q) && m.pages[p].ref > 0 && SizesOk(n, c)
    requires m.first == NULL || 0 <= m.first < |m.pages|
    requires n.pages == Dropped(m, p).pages && c.free == FreeAfterDrop(m, b, p)
    requires Held(c, q) == Held(b, q) - if q == p then 1 else 0
    ensures RefOk(n, c, q) && (q in c.free ==> IsFree(n, q))
  {
    hide TablesOk, Linked, Inserted;
    assert RefOk(m, b, p) && RefOk(m, b, q) && (q in b.free ==> IsFree(m, q));
    var u := Unreferred(m, p);
    ListKeepsRefs(u.pages, u.first, p, q);
  }

  // What the count of a page must be.
  ghost function Held(b: Book, p: int): nat {
    (if 0 <= p < |b.pins| then b.pins[p] else 0) + Count(b.entries, p)
  }

  lemma RefKeepsCounts(m: Mem, b: Book, n: Mem, c: Book, p: int)
    requires Inv(m, b) && IsPage(p) && p !in b.free && m.pages[p].ref < 0xFFFF && SizesOk(n, c)
    requires n == Referred(m, p).(frames := n.frames) && c.free == b.free
    requires forall q :: IsPage(q) ==> Held(c, q) == Held(b, q) + if q == p then 1 else 0
    ensures Linked(n.pages, n.first, c.free)
    ensures forall q :: IsPage(q) ==> RefOk(n, c, q)
    ensures forall q :: q in c.free ==> IsFree(n, q)
  {
    assert n.pages == m.pages[p := m.pages[p].(ref := m.pages[p].ref + 1)];
    RefsDoNotMatter(m.pages, m.first, b.free, p, m.pages[p].ref + 1);
    forall q | IsPage(q)
      ensures RefOk(n, c, q)
    {
      assert RefOk(m, b, q);
      assert Held(c, q) == Held(b, q) + if q == p then 1 else 0;
    }
    forall q | q in c.free
      ensures IsFree(n, q)
    {
      assert IsFree(m, q);
    }
  }

  // ----- changing entries

  // A new entry in a table.
  lemma TablesAfterSet(m: Mem, b: Book, n: Mem, c: Book, d: int, i: int, j: nat, w: u32)
    requires SizesOk(m, b) && TablesOk(m, b) && SizesOk(n, c)
    requires InDir(d, i) in b.entries && j < PTE2PT && IsPage(b.entries[InDir(d, i)])
    requires IsValid(w) && IsPage(PageOf(w))
    requires n.frames == WordSet(m, b.entries[InDir(d, i)], j, w).frames
    requires c == b.(entries := b.entries[InTable(d, i, j) := PageOf(w)], free := c.free)
    ensures TablesOk(n, c)
  {
    assert SlotOk(b, InDir(d, i));
    forall s | s in c.entries
      ensures SlotOk(c, s)
    {
      if s != InTable(d, i, j) {
        assert SlotOk(b, s);
      }
    }
    forall s, t | s in c.entries && t in c.entries
      ensures OneTable(c, s, t)
    {
      if s in b.entries && t in b.entries {
        assert OneTable(b, s, t);
      }
    }
    forall e, k | e in c.dirs && 0 <= k < OWNPDX
      ensures DirOk(n, c, e, k)
    {
      assert DirOk(m, b, e, k);
    }
    forall e, k, l | InDir(e, k) in c.entries && 0 <= l < PTE2PT
      ensures TableOk(n, c, e, k, l)
    {
      assert SlotOk(b, InDir(e, k)) && TableOk(m, b, e, k, l) && OneTable(b, InDir(e, k), InDir(d, i));
    }
  }

  // An entry of a table cleared.
  lemma TablesAfterClear(m: Mem, b: Book, n: Mem, c: Book, d: int, i: int, j: nat)
    requires SizesOk(m, b) && TablesOk(m, b) && SizesOk(n, c)
    requires InDir(d, i) in b.entries && j < PTE2PT && IsPage(b.entries[InDir(d, i)])
    requires n.frames == WordSet(m, b.entries[InDir(d, i)], j, 0).frames
    requires c == b.(entries := b.entries - {InTable(d, i, j)}, free := c.free)
    ensures TablesOk(n, c)
  {
    assert SlotOk(b, InDir(d, i));
    forall s | s in c.entries
      ensures SlotOk(c, s)
    {
      assert SlotOk(b, s);
    }
    forall s, t | s in c.entries && t in c.entries
      ensures OneTable(c, s, t)
    {
      assert OneTable(b, s, t);
    }
    forall e, k | e in c.dirs && 0 <= k < OWNPDX
      ensures DirOk(n, c, e, k)
    {
      assert DirOk(m, b, e, k);
    }
    forall e, k, l | InDir(e, k) in c.entries && 0 <= l < PTE2PT
      ensures TableOk(n, c, e, k, l)
    {
      assert SlotOk(b, InDir(e, k)) && TableOk(m, b, e, k, l) && OneTable(b, InDir(e, k), InDir(d, i));
    }
  }

  // A new, empty table.
  lemma TablesAfterAdd(m: Mem, b: Book, n: Mem, c: Book, d: int, i: nat, t: int, w: u32)
    requires SizesOk(m, b) && TablesOk(m, b) && SizesOk(n, c)
    requires d in b.dirs && i < OWNPDX && InDir(d, i) !in b.entries && IsPage(d)
    requires IsPage(t) && t !in b.dirs && m.frames[t] == ZeroFrame() && forall s :: s in b.entries ==> b.entries[s] != t
    requires IsValid(w) && PageOf(w) == t
    requires n.frames == WordSet(m, d, i, w).frames
    requires c == b.(entries := b.entries[InDir(d, i) := t], free := c.free)
    ensures TablesOk(n, c)
  {
    forall s | s in c.entries
      ensures SlotOk(c, s)
    {
      if s != InDir(d, i) {
        assert SlotOk(b, s);
      }
    }
    forall s, u | s in c.entries && u in c.entries
      ensures OneTable(c, s, u)
    {
      if s in b.entries && u in b.entries {
        assert OneTable(b, s, u);
      }
    }
    forall e, k | e in c.dirs && 0 <= k < OWNPDX
      ensures DirOk(n, c, e, k)
    {
      assert DirOk(m, b, e, k);
    }
    forall e, k, l | InDir(e, k) in c.entries && 0 <= l < PTE2PT
      ensures TableOk(n, c, e, k, l)
    {
      if InDir(e, k) in b.entries {
        assert SlotOk(b, InDir(e, k)) && TableOk(m, b, e, k, l);
      } else {
        assert InTable(d, i, l) in b.entries ==> SlotOk(b, InTable(d, i, l));
      }
    }
  }

  // An empty table taken away.
  lemma TablesAfterRemove(m: Mem, b: Book, n: Mem, c: Book, d: int, i: nat)
    requires SizesOk(m, b) && TablesOk(m, b) && SizesOk(n, c)
    requires d in b.dirs && i < OWNPDX && InDir(d, i) in b.entries && IsPage(d)
    requires forall j :: InTable(d, i, j) !in b.entries
    requires n.frames == WordSet(m, d, i, 0).frames
    requires c == b.(entries := b.entries - {InDir(d, i)}, free := c.free)
    ensures TablesOk(n, c)
  {
    forall s | s in c.entries
      ensures SlotOk(c, s)
    {
      assert SlotOk(b, s);
    }
    forall s, t | s in c.entries && t in c.entries
      ensures OneTable(c, s, t)
    {
      assert OneTable(b, s, t);
    }
    forall e, k | e in c.dirs && 0 <= k < OWNPDX
      ensures DirOk(n, c, e, k)
    {
      assert DirOk(m, b, e, k);
    }
    forall e, k, l | InDir(e, k) in c.entries && 0 <= l < PTE2PT
      ensures TableOk(n, c, e, k, l)
    {
      assert SlotOk(b, InDir(e, k)) && TableOk(m, b, e, k, l);
    }
  }

  // ----- operations on memory and books together

  lemma DirIsPage(m: Mem, b: Book, d: int)
    requires Inv(m, b) && d in b.dirs
    ensures IsPage(d) && |b.pins| == NPAGE && b.pins[d] > 0
  {
  }

  lemma HeldWith(b: Book, s: Slot, p: int, q: int)
    requires s !in b.entries
    ensures Held(b.(entries := b.entries[s := p]), q) == Held(b, q) + if q == p then 1 else 0
  {
    CountOfNew(b.entries, s, p, q);
  }

  function WithTable(m: Mem, d: int, i: nat, t: int): (n: Mem)
    requires 0 <= d < |m.frames| && 0 <= t < |m.pages| && i < PTE2PT && IsPage(t)
    ensures |n.pages| == |m.pages| && |n.frames| == |m.frames|
  {
    Referred(WordSet(m, d, i, Entry(t, PTE_R)), t)
  }

  // pgdir_walk that creates a table.
  lemma AddTableKeepsInv(m: Mem, b: Book, d: int, i: nat, t: int)
    requires Inv(m, b) && d in b.dirs && i < OWNPDX && InDir(d, i) !in b.entries
    requires IsPage(t) && t !in b.free && t !in b.dirs && m.pages[t].ref == 0 && m.frames[t] == ZeroFrame()
    requires forall s :: s in b.entries ==> b.entries[s] != t
    ensures IsPage(d) && Inv(WithTable(m, d, i, t), b.(entries := b.entries[InDir(d, i) := t]))
  {
    hide Linked, WithV, TablesOk, RefOk, IsFree, Held;
    DirIsPage(m, b, d);
    EntryNames(t, PTE_R);
    var n, c := WithTable(m, d, i, t), b.(entries := b.entries[InDir(d, i) := t]);
    forall q | IsPage(q)
      ensures Held(c, q) == Held(b, q) + if q == t then 1 else 0
    {
      HeldWith(b, InDir(d, i), t, q);
    }
    RefKeepsCounts(m, b, n, c, t);
    TablesAfterAdd(m, b, n, c, d, i, t, Entry(t, PTE_R));
  }

  function WithEntry(m: Mem, t: int, j: nat, p: int, perm: nat): (n: Mem)
    requires 0 <= t < |m.frames| && 0 <= p < |m.pages| && j < PTE2PT && IsPage(p) && perm < BY2PG
    ensures |n.pages| == |m.pages| && |n.frames| == |m.frames|
  {
    Referred(WordSet(m, t, j, Entry(p, perm)), p)
  }

  lemma TableIsPage(m: Mem, b: Book, d: int, i: int)
    requires Inv(m, b) && InDir(d, i) in b.entries
    ensures d in b.dirs && 0 <= i < OWNPDX && IsPage(d) && IsPage(b.entries[InDir(d, i)])
    ensures PageOf(m.frames[d][i]) == b.entries[InDir(d, i)] && IsValid(m.frames[d][i])
  {
    assert SlotOk(b, InDir(d, i)) && DirOk(m, b, d, i);
  }

  lemma AddEntryKeepsInv(m: Mem, b: Book, d: int, i: int, j: nat, p: int, perm: nat)
    requires Inv(m, b) && InDir(d, i) in b.entries && j < PTE2PT && InTable(d, i, j) !in b.entries
    requires IsPage(p) && p !in b.free && m.pages[p].ref < 0xFFFF && perm < BY2PG
    ensures IsPage(b.entries[InDir(d, i)])
    ensures Inv(WithEntry(m, b.entries[InDir(d, i)], j, p, perm), b.(entries := b.entries[InTable(d, i, j) := p]))
  {
    hide Linked, WithV, TablesOk, RefOk, IsFree, Held;
    EntryNames(p, perm);
    TableIsPage(m, b, d, i);
    var n, c := WithEntry(m, b.entries[InDir(d, i)], j, p, perm), b.(entries := b.entries[InTable(d, i, j) := p]);
    forall q | IsPage(q)
      ensures Held(c, q) == Held(b, q) + if q == p then 1 else 0
    {
      HeldWith(b, InTable(d, i, j), p, q);
    }
    RefKeepsCounts(m, b, n, c, p);
    TablesAfterSet(m, b, n, c, d, i, j, Entry(p, perm));
  }

  // Mapping the page that is mapped already: only the permissions change.
  lemma SetAgainKeepsInv(m: Mem, b: Book, d: int, i: int, j: nat, perm: nat)
    requires Inv(m, b) && InTable(d, i, j) in b.entries && perm < BY2PG && j < PTE2PT
    ensures InDir(d, i) in b.entries && IsPage(b.entries[InDir(d, i)]) && IsPage(b.entries[InTable(d, i, j)])
    ensures Inv(WordSet(m, b.entries[InDir(d, i)], j, Entry(b.entries[InTable(d, i, j)], perm)), b)
  {
    hide Linked, WithV;
    assert SlotOk(b, InTable(d, i, j));
    var p := b.entries[InTable(d, i, j)];
    EntryNames(p, perm);
    TableIsPage(m, b, d, i);
    var n := WordSet(m, b.entries[InDir(d, i)], j, Entry(p, perm));
    assert b.entries[InTable(d, i, j) := p] == b.entries;
    TablesAfterSet(m, b, n, b, d, i, j, Entry(p, perm));
    forall q | IsPage(q)
      ensures RefOk(n, b, q)
    {
      assert RefOk(m, b, q);
    }
    forall q | q in b.free
      ensures IsFree(n, q)
    {
      assert IsFree(m, q);
    }
  }

  function WithoutEntry(m: Mem, t: int, j: nat, p: int): (n: Mem)
    requires 0 <= t < |m.frames| && 0 <= p < |m.pages| && j < PTE2PT && (m.first == NULL || 0 <= m.first < |m.pages|)
    ensures |n.pages| == |m.pages| && |n.frames| == |m.frames|
  {
    WordSet(Dropped(m, p), t, j, 0)
  }

  function BookWithout(m: Mem, b: Book, s: Slot): Book
    requires s in b.entries && 0 <= b.entries[s] < |m.pages|
  {
    b.(entries := b.entries - {s}, free := FreeAfterDrop(m, b, b.entries[s]))
  }

  // An entry in use keeps its page allocated.
  lemma EntryHolds(m: Mem, b: Book, s: Slot)
    requires Inv(m, b) && s in b.entries
    ensures IsPage(b.entries[s]) && m.pages[b.entries[s]].ref > 0 && b.entries[s] !in b.free
  {
    assert SlotOk(b, s);
    var p := b.entries[s];
    assert RefOk(m, b, p);
    assert s in Naming(b.entries, p);
    assert p in b.free ==> IsFree(m, p);
  }

  lemma RemoveEntryKeepsInv(m: Mem, b: Book, d: int, i: int, j: nat)
    requires Inv(m, b) && InTable(d, i, j) in b.entries && j < PTE2PT
    ensures InDir(d, i) in b.entries && IsPage(b.entries[InDir(d, i)]) && IsPage(b.entries[InTable(d, i, j)])
    ensures m.first == NULL || 0 <= m.first < |m.pages|
    ensures Inv(WithoutEntry(m, b.entries[InDir(d, i)], j, b.entries[InTable(d, i, j)]), BookWithout(m, b, InTable(d, i, j)))
  {
    assert SlotOk(b, InTable(d, i, j));
    FirstIsPage(m.pages, m.first, b.free);
    var p := b.entries[InTable(d, i, j)];
    EntryHolds(m, b, InTable(d, i, j));
    TableIsPage(m, b, d, i);
    EntryGone(m, b, d, i, j, p);
  }

  lemma EntryGone(m: Mem, b: Book, d: int, i: int, j: nat, p: int)
    requires Inv(m, b) && InTable(d, i, j) in b.entries && b.entries[InTable(d, i, j)] == p && j < PTE2PT
    requires IsPage(p) && m.pages[p].ref > 0 && InDir(d, i) in b.entries && IsPage(b.entries[InDir(d, i)])
    requires m.first == NULL || 0 <= m.first < |m.pages|
    ensures Inv(WithoutEntry(m, b.entries[InDir(d, i)], j, p), BookWithout(m, b, InTable(d, i, j)))
  {
    hide Linked;
    var n, c := WithoutEntry(m, b.entries[InDir(d, i)], j, p), BookWithout(m, b, InTable(d, i, j));
    forall q | IsPage(q)
      ensures Held(c, q) == Held(b, q) - if q == p then 1 else 0
    {
      CountOfGone(b.entries, InTable(d, i, j), q);
    }
    DropKeepsCounts(m, b, n, c, p);
    TablesAfterClear(m, b, n, c, d, i, j);
  }
}
