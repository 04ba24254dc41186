// sched_yield and sched_yield_voluntarily_giveup: ring walks that boost, select and demote.
module Scheduler {
  import opened Environments

  const MAX_PRIORITY := 5
  const BOOST_PERIOD := 5

  // The priorities around the ring, from head on.
  ghost function Priorities(k: Kernel): (p: seq<nat>)
    reads k, k.ring
    ensures |p| == |k.ring|
  {
    seq(|k.ring|, i requires 0 <= i < |k.ring| reads k, k.ring => k.ring[i].pri)
  }

  function Boosted(p: nat): nat {
    if p > 0 then MAX_PRIORITY else p
  }

  function AllBoosted(p: seq<nat>): (q: seq<nat>)
    ensures |q| == |p|
  {
    seq(|p|, i requires 0 <= i < |p| => Boosted(p[i]))
  }

  function Demoted(p: nat): nat {
    if p > 1 then p - 1 else p
  }

  // i is the first of the highest priorities, -1 when there is none above 0.
  predicate IsFirstHighest(p: seq<nat>, i: int) {
    if i == -1 then forall j :: 0 <= j < |p| ==> p[j] == 0
    else
      && 0 <= i < |p| && p[i] > 0
      && (forall j :: 0 <= j < |p| ==> p[j] <= p[i])
      && (forall j :: 0 <= j < i ==> p[j] < p[i])
  }

  // Each member's link leads on around the ring; the walk is back at head after the last one.
  lemma StepAround(k: Kernel, i: nat)
    requires k.Valid() && i < |k.ring|
    ensures k.ring[i].link == Next(k.ring, i)
    ensures k.ring[i].link == k.head <==> i + 1 == |k.ring|
    ensures k.head == k.ring[0] && k.ring[i] in k.envs
    ensures forall j :: 0 <= j < |k.ring| && j != i ==> k.ring[j] != k.ring[i]
  {
  }

  method SetPriority(k: Kernel, e: Env, pri: nat)
    requires k.Valid()
    modifies e`pri
    ensures k.Valid() && e.pri == pri
  {
    e.pri := pri;
  }

  // The walk that lifts every member with a priority above 0 to the highest one.
  method Boost(k: Kernel)
    requires k.Valid() && k.ring != []
    modifies k.envs`pri
    ensures k.Valid() && Priorities(k) == AllBoosted(old(Priorities(k)))
    ensures forall o :: o in k.envs && o !in k.ring ==> o.pri == old(o.pri)
  {
    hide Kernel.Valid;
    ghost var p := Priorities(k);
    StepAround(k, 0);
    var e := k.head;
    ghost var i := 0;
    while true
      invariant i < |k.ring| && e == k.ring[i] && k.Valid()
      invariant forall j :: 0 <= j < |k.ring| ==> k.ring[j].pri == if j < i then Boosted(p[j]) else p[j]
      invariant forall o :: o in k.envs && o !in k.ring ==> o.pri == old(o.pri)
      decreases |k.ring| - i
    {
      StepAround(k, i);
      if e.pri > 0 {
        SetPriority(k, e, MAX_PRIORITY);
      }
      e := e.link;
      if e == k.head {
        return;
      }
      i := i + 1;
    }
  }

  lemma NoneYet(p: seq<nat>)
    ensures IsFirstHighest(p[..0], -1)
  {
  }

  lemma OneMore(p: seq<nat>, i: nat, pick: int, highest: nat)
    requires i < |p| && IsFirstHighest(p[..i], pick) && -1 <= pick < i && highest == if pick == -1 then 0 else p[pick]
    ensures IsFirstHighest(p[..i + 1], if p[i] > highest then i else pick)
  {
  }

  // The walk that looks for the first of the highest priorities; the current environment is kept
  // when all are 0.
  method Select(k: Kernel) returns (e: Env?, ghost pick: int)
    requires k.Valid() && k.ring != []
    ensures IsFirstHighest(Priorities(k), pick) && -1 <= pick < |k.ring|
    ensures e == if pick == -1 then k.cur else k.ring[pick]
  {
    hide Kernel.Valid, IsFirstHighest;
    ghost var p := Priorities(k);
    e := k.cur;
    pick := -1;
    NoneYet(p);
    StepAround(k, 0);
    var highest := 0;
    var cand := k.head;
    ghost var i := 0;
    while true
      invariant i < |k.ring| && cand == k.ring[i]
      invariant IsFirstHighest(p[..i], pick) && -1 <= pick < i && highest == if pick == -1 then 0 else p[pick]
      invariant e == if pick == -1 then k.cur else k.ring[pick]
      decreases |k.ring| - i
    {
      OneMore(p, i, pick, highest);
      if cand.pri > highest {
        highest := cand.pri;
        e := cand;
        pick := i;
      }
      StepAround(k, i);
      cand := cand.link;
      if cand == k.head {
        assert p[..i + 1] == p;
        return;
      }
      i := i + 1;
    }
  }

  // What a clock interrupt does to the priorities, up to the selection.
  ghost function Ticked(remaining: int, p: seq<nat>): (q: seq<nat>)
    ensures |q| == |p|
  {
    if remaining == 1 then AllBoosted(p) else p
  }

  method SetRemaining(k: Kernel, r: int)
    requires k.Valid()
    modifies k`remaining
    ensures k.Valid() && k.remaining == r && Priorities(k) == old(Priorities(k))
  {
    k.remaining := r;
    assert Priorities(k) == old(Priorities(k));
  }

  function NextRemaining(remaining: int): int {
    if remaining == 1 then BOOST_PERIOD else remaining - 1
  }

  // Counts down to the next boost, and boosts when it is due.
  method Tick(k: Kernel)
    requires k.Valid() && k.ring != []
    modifies k`remaining, k.envs`pri
    ensures k.Valid() && k.remaining == NextRemaining(old(k.remaining))
    ensures Priorities(k) == Ticked(old(k.remaining), old(Priorities(k)))
    ensures forall o :: o in k.envs && o !in k.ring ==> o.pri == old(o.pri)
  {
    hide Kernel.Valid;
    SetRemaining(k, k.remaining - 1);
    if k.remaining == 0 {
      Boost(k);
      SetRemaining(k, BOOST_PERIOD);
    }
  }

  // What sched_yield does to the priorities p around the ring when there is a current environment:
  // they become q, where the outgoing one (number out, -1 when it is not in the ring) has been
  // demoted, and member pick is chosen.
  ghost predicate Dispatched(p: seq<nat>, remaining: int, out: int, q: seq<nat>, pick: int) {
    && |q| == |p| && IsFirstHighest(Ticked(remaining, p), pick)
    && forall j :: 0 <= j < |p| ==>
      q[j] == if j == out then Demoted(Ticked(remaining, p)[j]) else Ticked(remaining, p)[j]
  }

  // e is member number i of the ring, or not in it.
  ghost predicate IsMember(ring: seq<Env>, e: Env, i: int) {
    if i == -1 then e !in ring else 0 <= i < |ring| && ring[i] == e
  }

  // sched_yield.
  method Yield(k: Kernel) returns (ghost out: int, ghost pick: int)
    requires k.Valid() && k.ring != [] && (k.cur != null ==> k.cur in k.envs)
    modifies k`remaining, k`cur, k.envs`pri, k.envs`runs
    ensures k.Valid() && k.ring == old(k.ring) && k.idle == old(k.idle)
    ensures k.remaining == NextRemaining(old(k.remaining))
    ensures old(k.cur) == null ==>
      k.cur == k.head && Priorities(k) == Ticked(old(k.remaining), old(Priorities(k)))
    ensures old(k.cur) != null ==>
      && IsMember(k.ring, old(k.cur), out)
      && Dispatched(old(Priorities(k)), old(k.remaining), out, Priorities(k), pick)
      && k.cur == if pick == -1 then old(k.cur) else k.ring[pick]
    ensures forall o :: o in k.envs ==> o.runs == old(o.runs) + if o == k.cur then 1 else 0
    ensures forall o :: o in k.envs && o !in k.ring ==>
      o.pri == if o == old(k.cur) && old(o.pri) > 1 then old(o.pri) - 1 else old(o.pri)
  {
    hide Kernel.Valid, IsFirstHighest;
    out, pick := -1, -1;
    var e := k.cur;
    ghost var p := Priorities(k);
    Tick(k);
    if k.cur == null {
      e := k.head;
    } else {
      e, pick := Select(k);
      out := NumberOf(k, k.cur);
      if k.cur.pri > 1 {
        SetPriority(k, k.cur, k.cur.pri - 1);
      }
    }
    MemberOrCurrent(k, pick);
    ghost var q := Priorities(k);
    Run(k, e);
    assert Priorities(k) == q;
  }

  lemma NumberOf(k: Kernel, e: Env) returns (i: int)
    requires k.Valid()
    ensures IsMember(k.ring, e, i)
    ensures forall j :: 0 <= j < |k.ring| ==> (k.ring[j] == e <==> j == i)
  {
    i := -1;
    if e in k.ring {
      i :| 0 <= i < |k.ring| && k.ring[i] == e;
    }
  }

  lemma MemberOrCurrent(k: Kernel, pick: int)
    requires k.Valid() && k.ring != []
    ensures k.head != null && k.head in k.envs
    ensures 0 <= pick < |k.ring| ==> k.ring[pick] in k.envs
  {
  }

  // sched_yield_voluntarily_giveup.
  method YieldVoluntarily(k: Kernel) returns (ghost pick: int)
    requires k.Valid() && k.ring != [] && (k.cur != null ==> k.cur in k.envs)
    modifies k`cur, k.envs`runs
    ensures k.Valid() && k.ring == old(k.ring) && k.idle == old(k.idle)
    ensures if old(k.cur) == null then k.cur == k.head
      else IsFirstHighest(Priorities(k), pick) && k.cur == if pick == -1 then old(k.cur) else k.ring[pick]
    ensures forall o :: o in k.envs ==> o.runs == old(o.runs) + if o == k.cur then 1 else 0
  {
    hide Kernel.Valid, IsFirstHighest;
    pick := -1;
    var e := k.cur;
    if k.cur == null {
      e := k.head;
    } else {
      e, pick := Select(k);
    }
    MemberOrCurrent(k, pick);
    ghost var p := Priorities(k);
    Run(k, e);
    assert Priorities(k) == p;
  }

  // ----- what follows for the members of a ring

  // The choice is determined by the priorities.
  lemma HighestIsUnique(p: seq<nat>, i: int, j: int)
    requires IsFirstHighest(p, i) && IsFirstHighest(p, j)
    ensures i == j
  {
    assert i != -1 ==> p[i] > 0;
    assert j != -1 ==> p[j] > 0;
  }

  // A priority above 0 stays above 0, and 0 stays 0.
  lemma StaysPositive(p: seq<nat>, remaining: int, out: int, q: seq<nat>, pick: int, j: nat)
    requires Dispatched(p, remaining, out, q, pick) && j < |p|
    ensures q[j] > 0 <==> p[j] > 0
  {
  }

  // A dispatch with a boost chooses the first member with a priority above 0, whatever the priorities
  // were.
  lemma BoostStarts(p: seq<nat>, out: int, q: seq<nat>, pick: int)
    requires Dispatched(p, 1, out, q, pick)
    ensures if pick == -1 then forall j :: 0 <= j < |p| ==> p[j] == 0
      else 0 <= pick < |p| && p[pick] > 0 && forall j :: 0 <= j < pick ==> p[j] == 0
  {
    var b := Ticked(1, p);
    forall j | 0 <= j < |p| && pick == -1
      ensures p[j] == 0
    {
      assert b[j] == 0;
    }
    if pick != -1 {
      assert b[pick] == MAX_PRIORITY && p[pick] > 0;
      forall j | 0 <= j < pick
        ensures p[j] == 0
      {
        assert b[j] < b[pick];
      }
    }
  }
}
