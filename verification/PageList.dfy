// The list of free pages: the LIST macros of inc/queue.h on page descriptors.
module PageList {

  const NULL := -1

  // le_prev: the address of the pointer that points to this element.
  datatype Link = Nowhere | Head | NextOf(page: int)

  // A page descriptor (struct Page).
  datatype Page = Page(next: int, prev: Link, ref: nat)

  // Element i of a list, NULL past its end.
  function Elem(s: seq<int>, i: nat): int {
    if i < |s| then s[i] else NULL
  }

  ghost predicate LinkedAt(pages: seq<Page>, s: seq<int>, i: nat) {
    && i < |s| && 0 <= s[i] < |pages|
    && pages[s[i]].next == Elem(s, i + 1)
    && pages[s[i]].prev == if i == 0 then Head else NextOf(s[i - 1])
  }

  // The list that starts at first consists of the pages s, each linked to the next and back, and
  // none of them twice.
  ghost predicate Linked(pages: seq<Page>, first: int, s: seq<int>) {
    && first == Elem(s, 0)
    && (forall i :: 0 <= i < |s| ==> LinkedAt(pages, s, i))
    && (forall i, j :: 0 <= i < j < |s| ==> s[i] != s[j])
  }

  // LIST_INSERT_HEAD.
  function Inserted(pages: seq<Page>, first: int, p: int): (q: seq<Page>)
    requires 0 <= p < |pages| && (first == NULL || 0 <= first < |pages|)
    ensures |q| == |pages|
  {
    var a := pages[p := pages[p].(next := first)];
    var b := if first != NULL then a[first := a[first].(prev := NextOf(p))] else a;
    b[p := b[p].(prev := Head)]
  }

  // *le_prev = le_next.
  function Bypassed(pages: seq<Page>, link: Link, next: int): (q: seq<Page>)
    ensures |q| == |pages|
  {
    match link
    case NextOf(o) => if 0 <= o < |pages| then pages[o := pages[o].(next := next)] else pages
    case _ => pages
  }

  // LIST_REMOVE: the descriptors and the first element afterwards.
  function Removed(pages: seq<Page>, p: int): (q: seq<Page>)
    requires 0 <= p < |pages|
    ensures |q| == |pages|
  {
    var n := pages[p].next;
    var a := if 0 <= n < |pages| then pages[n := pages[n].(prev := pages[p].prev)] else pages;
    Bypassed(a, pages[p].prev, n)
  }

  function FirstAfter(pages: seq<Page>, first: int, p: int): int
    requires 0 <= p < |pages|
  {
    if pages[p].prev == Head then pages[p].next else first
  }

  // Neither changes a reference count.
  lemma ListKeepsRefs(pages: seq<Page>, first: int, p: int, k: int)
    requires 0 <= p < |pages| && (first == NULL || 0 <= first < |pages|) && 0 <= k < |pages|
    ensures Inserted(pages, first, p)[k].ref == pages[k].ref
    ensures Removed(pages, p)[k].ref == pages[k].ref
  {
  }

  lemma FirstIsPage(pages: seq<Page>, first: int, s: seq<int>)
    requires Linked(pages, first, s)
    ensures first == NULL || 0 <= first < |pages|
    ensures first == NULL <==> s == []
  {
    if s != [] {
      assert LinkedAt(pages, s, 0);
    }
  }

  // Inserting at the head puts the page first.
  lemma InsertPutsFirst(pages: seq<Page>, first: int, s: seq<int>, p: int)
    requires Linked(pages, first, s) && 0 <= p < |pages| && p !in s
    requires first == NULL || 0 <= first < |pages|
    ensures Linked(Inserted(pages, first, p), p, [p] + s)
  {
    var q, t := Inserted(pages, first, p), [p] + s;
    FirstIsPage(pages, first, s);
    forall i | 0 <= i < |t|
      ensures LinkedAt(q, t, i)
    {
      if i > 0 {
        assert LinkedAt(pages, s, i - 1);
        assert s[i - 1] != p;
      }
    }
  }

  // Removing takes out exactly the page, from any place in the list.
  lemma RemoveTakesOut(pages: seq<Page>, first: int, s: seq<int>, k: nat)
    requires Linked(pages, first, s) && k < |s| && 0 <= s[k] < |pages|
    ensures Linked(Removed(pages, s[k]), FirstAfter(pages, first, s[k]), s[..k] + s[k + 1..])
  {
    var q, t := Removed(pages, s[k]), s[..k] + s[k + 1..];
    assert LinkedAt(pages, s, k);
    if k > 0 {
      assert LinkedAt(pages, s, k - 1);
    }
    forall i | 0 <= i < |t|
      ensures LinkedAt(q, t, i)
    {
      assert LinkedAt(pages, s, if i < k then i else i + 1);
    }
    forall i, j | 0 <= i < j < |t|
      ensures t[i] != t[j]
    {
    }
  }

  // Counts may change without harm to the list.
  lemma RefsDoNotMatter(pages: seq<Page>, first: int, s: seq<int>, p: int, ref: nat)
    requires Linked(pages, first, s) && 0 <= p < |pages|
    ensures Linked(pages[p := pages[p].(ref := ref)], first, s)
  {
    var q := pages[p := pages[p].(ref := ref)];
    forall i | 0 <= i < |s|
      ensures LinkedAt(q, s, i)
    {
      assert LinkedAt(pages, s, i);
    }
  }
}
