// Process control blocks: the free list and the ring of runnable environments, which share the link
// field (env/env.c).
module Environments {

  const ENV_FREE := 0
  const ENV_RUNNABLE := 1
  const NO_ID: nat := 0xFFFF_FFFF
  const NENV := 0x400
  const ID_STEP := 0x800         // 2^(1 + LOG2NENV)

  // The members of an environment (struct Env) that lists and scheduling use.
  class Env {
    const slot: nat          // its index in envs
    var link: Env?
    var status: int
    var id: nat
    var pri: nat
    var runs: nat

    constructor (slot: nat)
      ensures this.slot == slot
    {
      this.slot := slot;
      link, status, id, pri, runs := null, ENV_FREE, NO_ID, 0, 0;
    }
  }

  predicate AreDistinct(s: seq<Env>) {
    forall i, j :: 0 <= i < j < |s| ==> s[i] != s[j]
  }

  // Element i of a list, null past its end.
  function Elem(s: seq<Env>, i: nat): Env? {
    if i < |s| then s[i] else null
  }

  class Kernel {
    const envs: seq<Env>
    var freeList: Env?         // env_free_list
    var head: Env?             // env_runnable_head
    var tail: Env?             // env_runnable_tail
    var cur: Env?              // curenv
    var remaining: int         // remaining_time
    var lastId: nat            // next_env_id of mkenvid, 32 bits wide
    ghost var idle: seq<Env>
    ghost var ring: seq<Env>

    ghost predicate IsList()
      reads this`freeList, this`idle, idle`link
    {
      && AreDistinct(idle) && freeList == Elem(idle, 0)
      && (forall i :: 0 <= i < |idle| ==> idle[i] in envs && idle[i].link == Elem(idle, i + 1))
    }

    // The ring is a single cycle through head, and tail is the element before head.
    ghost predicate IsRing()
      reads this`head, this`tail, this`ring, ring`link
    {
      && AreDistinct(ring) && (forall i :: 0 <= i < |ring| ==> ring[i] in envs)
      && if ring == [] then head == null && tail == null
         else head == ring[0] && tail == ring[|ring| - 1] && LinksAround()
    }

    ghost predicate LinksAround()
      requires ring != []
      reads this`ring, ring`link
    {
      forall i :: 0 <= i < |ring| ==> ring[i].link == Next(ring, i)
    }

    ghost predicate Valid()
      reads this`freeList, this`idle, idle`link, this`head, this`tail, this`ring, ring`link
    {
      && AreDistinct(envs) && IsList() && IsRing()
      && forall e :: e in ring ==> e !in idle
    }

    // The state before env_init.
    constructor (envs: seq<Env>)
      ensures this.envs == envs && idle == ring == [] && remaining == 5 && lastId == 0
      ensures freeList == head == tail == cur == null
    {
      this.envs := envs;
      freeList, head, tail, cur := null, null, null, null;
      remaining, lastId := 5, 0;
      idle, ring := [], [];
    }
  }

  method InitOne(k: Kernel, e: Env)
    requires k.IsList() && e in k.envs && e !in k.idle
    modifies k`freeList, k`idle, e
    ensures k.IsList() && k.idle == [e] + old(k.idle) && e.status == ENV_FREE && e.id == NO_ID
    ensures e.pri == old(e.pri) && e.runs == old(e.runs)
  {
    e.id := NO_ID;
    e.status := ENV_FREE;
    PushFree(k, e);
  }

  // env_init: all environments are free, the first in the array first in the list.
  method Init(k: Kernel)
    requires AreDistinct(k.envs) && k.idle == k.ring == [] && k.freeList == k.head == k.tail == null
    modifies k`freeList, k`idle, k.envs
    ensures k.Valid() && k.idle == k.envs && k.ring == []
    ensures forall e :: e in k.envs ==> e.status == ENV_FREE && e.id == NO_ID && e.pri == old(e.pri) && e.runs == old(e.runs)
    ensures |k.envs| <= NENV && (forall i :: 0 <= i < |k.envs| ==> k.envs[i].slot == i) ==> Numbered(k)
  {
    hide AreDistinct, Kernel.IsList;
    var i := |k.envs|;
    assert k.envs[i..] == [];
    EmptyList(k);
    while i > 0
      invariant 0 <= i <= |k.envs| && k.idle == k.envs[i..] && k.IsList()
      invariant forall j :: i <= j < |k.envs| ==> k.envs[j].status == ENV_FREE && k.envs[j].id == NO_ID
      invariant forall e :: e in k.envs ==> e.pri == old(e.pri) && e.runs == old(e.runs)
    {
      i := i - 1;
      NotInRest(k.envs, i);
      InitOne(k, k.envs[i]);
    }
  }

  lemma EmptyList(k: Kernel)
    requires k.idle == [] && k.freeList == null
    ensures k.IsList()
  {
  }

  lemma NotInRest(s: seq<Env>, i: nat)
    requires AreDistinct(s) && i < |s|
    ensures s[i] !in s[i + 1..] && [s[i]] + s[i + 1..] == s[i..]
  {
  }

  function Next(s: seq<Env>, i: nat): (e: Env)
    requires i < |s|
  {
    if i + 1 < |s| then s[i + 1] else s[0]
  }

  // Puts an environment at the head of the free list.
  method PushFree(k: Kernel, e: Env)
    requires k.IsList() && e in k.envs && e !in k.idle
    modifies k`freeList, k`idle, e`link
    ensures k.IsList() && k.idle == [e] + old(k.idle)
  {
    e.link := k.freeList;
    k.freeList := e;
    k.idle := [e] + k.idle;
  }

  // ----- identifiers

  // mkenvid: a 32-bit word of the running number n and the index of the environment.
  function MakeId(n: nat, slot: nat): (id: nat)
    requires slot < NENV
    ensures id < 0x1_0000_0000 && id % 0x800 == slot && id / 0x800 == n % 0x20_0000
  {
    HighBits(n);
    n * ID_STEP % 0x1_0000_0000 + slot
  }

  // Two identifiers are the same exactly when they are of the same environment and their numbers
  // differ by a multiple of 2^21.
  lemma IdsRepeat(n: nat, i: nat, m: nat, j: nat)
    requires i < NENV && j < NENV
    ensures MakeId(n, i) == MakeId(m, j) <==> i == j && n % 0x20_0000 == m % 0x20_0000
    ensures MakeId(n, i) != NO_ID
  {
    HighBits(n);
    HighBits(m);
  }

  lemma HighBits(n: nat)
    ensures n * ID_STEP % 0x1_0000_0000 == ID_STEP * (n % 0x20_0000)
  {
  }

  // Environments are numbered by their place in envs, and an identifier, once there is one, says
  // which environment it is of.
  ghost predicate Numbered(k: Kernel)
    reads k.envs
  {
    |k.envs| <= NENV && forall i :: 0 <= i < |k.envs| ==>
      k.envs[i].slot == i && (k.envs[i].id == NO_ID || exists n: nat :: k.envs[i].id == MakeId(n, i))
  }

  // Two environments never have the same identifier, unless they have none.
  lemma IdsDiffer(k: Kernel, i: nat, j: nat)
    requires Numbered(k) && i < |k.envs| && j < |k.envs| && i != j && k.envs[i].id != NO_ID
    ensures k.envs[i].id != k.envs[j].id
  {
    var n: nat :| k.envs[i].id == MakeId(n, i);
    if k.envs[j].id != NO_ID {
      var m: nat :| k.envs[j].id == MakeId(m, j);
      IdsRepeat(n, i, m, j);
    }
  }

  // The members that env_alloc sets.
  method Stamp(k: Kernel, e: Env)
    requires k.Valid() && Numbered(k) && e in k.envs
    modifies k`lastId, e`id, e`status, e`runs
    ensures k.Valid() && Numbered(k) && e.status == ENV_RUNNABLE && e.runs == 0
    ensures k.lastId == (old(k.lastId) + 1) % 0x1_0000_0000 && e.slot < NENV && e.id == MakeId(k.lastId, e.slot)
    ensures forall o :: o in k.envs && o != e ==> o.id != e.id
  {
    hide MakeId;
    k.lastId := (k.lastId + 1) % 0x1_0000_0000;
    e.id := MakeId(k.lastId, e.slot);
    e.status := ENV_RUNNABLE;
    e.runs := 0;
    IdIsNew(k, e, k.lastId);
  }

  lemma IdIsNew(k: Kernel, e: Env, n: nat)
    requires Numbered(k) && e in k.envs && e.slot < NENV && e.id == MakeId(n, e.slot)
    ensures forall o :: o in k.envs && o != e ==> o.id != e.id
  {
    hide MakeId;
    forall o | o in k.envs && o != e
      ensures o.id != e.id
    {
      var i, j :| 0 <= i < |k.envs| && 0 <= j < |k.envs| && k.envs[i] == e && k.envs[j] == o;
      IdsRepeat(n, e.slot, 0, 0);
      IdsDiffer(k, i, j);
    }
  }

  // env_alloc, after the address space has been set up: takes the first free environment.
  method Alloc(k: Kernel) returns (e: Env?)
    requires k.Valid() && Numbered(k)
    modifies k`freeList, k`idle, k`lastId, k.envs
    ensures k.Valid() && Numbered(k) && k.ring == old(k.ring)
    ensures old(k.idle) == [] ==> e == null && k.idle == []
    ensures old(k.idle) != [] ==>
      e == old(k.idle[0]) && k.idle == old(k.idle[1..]) && e !in k.ring && e !in k.idle && e in k.envs
      && e.status == ENV_RUNNABLE && e.runs == 0
      && k.lastId == (old(k.lastId) + 1) % 0x1_0000_0000 && e.slot < NENV && e.id == MakeId(k.lastId, e.slot)
      && forall o :: o in k.envs && o != e ==> o.id == old(o.id) != e.id
    ensures forall o :: o in k.envs ==> o.pri == old(o.pri) && (o != e ==> o.status == old(o.status) && o.runs == old(o.runs))
  {
    hide Numbered, MakeId, Kernel.Valid;
    FirstIsIdle(k);
    e := k.freeList;
    if e == null {
      return;
    }
    Stamp(k, e);
    PopFree(k);
  }

  lemma FirstIsIdle(k: Kernel)
    requires k.Valid()
    ensures k.freeList == Elem(k.idle, 0) && (k.idle != [] ==> k.idle[0] in k.envs)
  {
  }

  // Takes the first environment out of the free list.
  method PopFree(k: Kernel)
    requires k.Valid() && k.idle != []
    modifies k`freeList, k`idle
    ensures k.Valid() && k.idle == old(k.idle[1..]) && old(k.idle[0]) !in k.idle && old(k.idle[0]) !in k.ring
  {
    k.freeList := k.freeList.link;
    k.idle := k.idle[1..];
  }

  // Linking into the ring touches no element of the free list.
  lemma ListsAreApart(k: Kernel, e: Env)
    requires k.Valid() && e !in k.idle
    ensures forall i :: 0 <= i < |k.idle| ==> k.idle[i] != e && k.idle[i] != k.tail
  {
    if k.ring != [] {
      assert k.tail in k.ring;
    }
  }

  // The end of env_create_priority: appends an environment to the ring.
  method Append(k: Kernel, e: Env)
    requires k.Valid() && e in k.envs && e !in k.ring && e !in k.idle
    modifies k`head, k`tail, k`ring, k.envs
    ensures k.Valid() && k.ring == old(k.ring) + [e] && k.idle == old(k.idle)
    ensures forall o :: o in k.envs ==>
      o.pri == old(o.pri) && o.status == old(o.status) && o.id == old(o.id) && o.runs == old(o.runs)
  {
    ListsAreApart(k, e);
    if k.head == null {
      e.link := e;
      k.head, k.tail := e, e;
    } else {
      e.link := k.head;
      k.tail.link := e;
      k.tail := e;
    }
    k.ring := k.ring + [e];
  }

  // The end of pthread_create, which links in another order.
  method AppendThread(k: Kernel, e: Env)
    requires k.Valid() && e in k.envs && e !in k.ring && e !in k.idle
    modifies k`head, k`tail, k`ring, k.envs
    ensures k.Valid() && k.ring == old(k.ring) + [e] && k.idle == old(k.idle)
    ensures forall o :: o in k.envs ==>
      o.pri == old(o.pri) && o.status == old(o.status) && o.id == old(o.id) && o.runs == old(o.runs)
  {
    ListsAreApart(k, e);
    if k.head == null {
      k.head, k.tail := e, e;
      k.tail.link := k.head;
    } else {
      k.tail.link := e;
      k.tail := e;
      k.tail.link := k.head;
    }
    k.ring := k.ring + [e];
  }

  function Minus(s: seq<Env>, i: nat): (t: seq<Env>)
    requires i < |s|
    ensures |t| == |s| - 1
  {
    s[..i] + s[i + 1..]
  }

  // Taking element i out of a ring: which links change, and to what.
  lemma LinksOfMinus(s: seq<Env>, i: nat, j: nat)
    requires AreDistinct(s) && i < |s| && j < |s| && i != j && |s| > 1
    ensures var t := Minus(s, i);
      var l := if j < i then j else j - 1;
      t[l] == s[j] && Next(t, l) == if Next(s, j) == s[i] then Next(s, i) else Next(s, j)
  {
  }

  lemma EndsOfMinus(s: seq<Env>, i: nat)
    requires i < |s|
    ensures |s| == 1 ==> Minus(s, i) == []
    ensures |s| > 1 ==>
      && Minus(s, i)[0] == (if i == 0 then s[1] else s[0])
      && Minus(s, i)[|s| - 2] == if i == |s| - 1 then s[|s| - 2] else s[|s| - 1]
  {
  }

  lemma MinusIsDistinct(s: seq<Env>, i: nat)
    requires AreDistinct(s) && i < |s|
    ensures AreDistinct(Minus(s, i)) && s[i] !in Minus(s, i)
    ensures forall e :: e in Minus(s, i) <==> e in s && e != s[i]
  {
    var t := Minus(s, i);
    forall e | e in s && e != s[i]
      ensures e in t
    {
      var k :| 0 <= k < |s| && s[k] == e;
      assert t[if k < i then k else k - 1] == e;
    }
  }

  // The predecessor of element i.
  function Before(s: seq<Env>, i: nat): (e: Env)
    requires i < |s|
  {
    if i == 0 then s[|s| - 1] else s[i - 1]
  }

  lemma OnlyBeforeLinks(s: seq<Env>, i: nat, j: nat)
    requires AreDistinct(s) && i < |s| && j < |s|
    ensures Next(s, j) == s[i] <==> s[j] == Before(s, i)
  {
  }

  // The walk of env_free around the ring: the environment and the one before it.
  method Find(k: Kernel, e: Env) returns (found: bool, pre: Env?, ghost i: nat)
    requires k.Valid() && k.ring != []
    ensures found <==> e in k.ring
    ensures found ==> i < |k.ring| && k.ring[i] == e && pre == Before(k.ring, i)
  {
    var cand := k.head;
    pre := k.tail;
    i := 0;
    while cand != e
      invariant i < |k.ring| && cand == k.ring[i] && pre == Before(k.ring, i)
      invariant forall j :: 0 <= j < i ==> k.ring[j] != e
      decreases |k.ring| - i
    {
      pre := cand;
      cand := cand.link;
      if cand == k.head {
        return false, pre, i;
      }
      i := i + 1;
    }
    found := true;
  }

  // Takes element i, which is e with pre before it, out of the ring.
  method Unlink(k: Kernel, e: Env, pre: Env, ghost i: nat)
    requires k.IsRing() && i < |k.ring| && k.ring[i] == e && pre == Before(k.ring, i)
    modifies k`head, k`tail, k`ring, pre`link
    ensures k.IsRing() && k.ring == Minus(old(k.ring), i) && (k.ring != [] ==> e.link == old(e.link))
  {
    hide Minus;
    ghost var s := k.ring;
    var next := e.link;
    var hasRunnable := next != e;
    pre.link := next;
    if k.head == e {
      k.head := if hasRunnable then next else null;
    }
    if k.tail == e {
      k.tail := if hasRunnable then pre else null;
    }
    k.ring := Minus(s, i);
    RingIsClosed(k, s, i);
  }

  // When every other element links to the next one, and the one before element i past it, the ring
  // without element i is closed.
  lemma RingIsClosed(k: Kernel, s: seq<Env>, i: nat)
    requires AreDistinct(s) && i < |s| && k.ring == Minus(s, i) && forall l :: 0 <= l < |s| ==> s[l] in k.envs
    requires forall l :: 0 <= l < |s| && l != i ==> s[l].link == if s[l] == Before(s, i) then Next(s, i) else Next(s, l)
    requires if |s| == 1 then k.head == null && k.tail == null
      else k.head == (if i == 0 then s[1] else s[0]) && k.tail == if i == |s| - 1 then s[|s| - 2] else s[|s| - 1]
    ensures k.IsRing()
  {
    hide Minus, Before, Next;
    EndsOfMinus(s, i);
    MinusIsDistinct(s, i);
    forall j | 0 <= j < |k.ring|
      ensures k.ring[j].link == Next(k.ring, j) && k.ring[j] in k.envs
    {
      var l := LinksAfterwards(s, i, j);
    }
  }

  // What element j of the shorter ring was before, and what its link has to be.
  lemma LinksAfterwards(s: seq<Env>, i: nat, j: nat) returns (l: nat)
    requires AreDistinct(s) && i < |s| && j + 1 < |s|
    ensures l < |s| && l != i && Minus(s, i)[j] == s[l]
    ensures Next(Minus(s, i), j) == if s[l] == Before(s, i) then Next(s, i) else Next(s, l)
  {
    hide Minus;
    l := if j < i then j else j + 1;
    LinksOfMinus(s, i, l);
    OnlyBeforeLinks(s, i, l);
  }

  // env_run, up to the context switch.
  method Run(k: Kernel, e: Env)
    requires k.Valid()
    modifies k`cur, e`runs
    ensures k.Valid() && k.cur == e && e.runs == old(e.runs) + 1
  {
    k.cur := e;
    e.runs := e.runs + 1;
  }

  // Frees an environment that is in neither list.
  method PutBack(k: Kernel, e: Env)
    requires k.Valid() && e in k.envs && e !in k.ring && e !in k.idle
    modifies k`idle, k`freeList, e`status, e`link
    ensures k.Valid() && k.idle == [e] + old(k.idle) && e.status == ENV_FREE
  {
    e.status := ENV_FREE;
    PushFree(k, e);
    assert forall j :: 0 <= j < |k.ring| ==> k.ring[j] != e && k.ring[j] in k.ring;
  }

  // Moves element i from the ring to the free list.
  method Retire(k: Kernel, e: Env, pre: Env, ghost i: nat)
    requires k.Valid() && i < |k.ring| && k.ring[i] == e && pre == Before(k.ring, i) && e in k.ring && pre in k.ring
    modifies k`head, k`tail, k`ring, k`idle, k`freeList, pre`link, e`link, e`status
    ensures k.Valid() && e.status == ENV_FREE
    ensures k.ring == Minus(old(k.ring), i) && k.idle == [e] + old(k.idle)
  {
    hide Minus;
    MinusIsDistinct(k.ring, i);
    forall j | 0 <= j < |k.idle|
      ensures k.idle[j] != pre
    {
      assert k.idle[j] in k.idle;
    }
    Unlink(k, e, pre, i);
    PutBack(k, e);
  }

  // The end of env_free: takes an environment out of the ring and frees it; the next one runs if it
  // was the current one. Nothing happens when it is not in the ring.
  method Release(k: Kernel, e: Env) returns (found: bool, ghost i: nat)
    requires k.Valid() && k.ring != []
    modifies k`head, k`tail, k`cur, k`ring, k`idle, k`freeList, k.envs
    ensures k.Valid() && (found <==> e in old(k.ring))
    ensures !found ==> k.ring == old(k.ring) && k.idle == old(k.idle) && k.cur == old(k.cur)
    ensures found ==>
      && i < |old(k.ring)| && old(k.ring)[i] == e && e.status == ENV_FREE
      && k.ring == Minus(old(k.ring), i) && k.idle == [e] + old(k.idle)
      && k.cur == (if old(k.cur) != e then old(k.cur) else if k.ring == [] then null else Next(old(k.ring), i))
    ensures forall o :: o in k.envs ==> o.pri == old(o.pri) && o.id == old(o.id) && (o != e ==> o.status == old(o.status))
    ensures forall o :: o in k.envs ==> o.runs == old(o.runs) + if found && old(k.cur) == e && o == k.cur then 1 else 0
  {
    hide Minus;
    ghost var s := k.ring;
    var pre;
    found, pre, i := Find(k, e);
    if !found {
      return;
    }
    var next := e.link;
    Retire(k, e, pre, i);
    if e == k.cur {
      if next != e {
        Run(k, next);
      } else {
        k.cur := null;
      }
    }
  }
}
