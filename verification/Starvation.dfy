// Which members of an unchanged ring sched_yield chooses over time: the first four with a priority
// above 0, and no other.
module Starvation {
  import opened Environments
  import opened Scheduler

  // ----- runs

  // Dispatch i of a run: the outgoing member of the next one is the member chosen in this one.
  ghost predicate IsDispatch(ps: seq<seq<nat>>, rs: seq<int>, outs: seq<int>, picks: seq<int>, i: nat)
    requires i < |picks| && |ps| == |rs| == |outs| == |picks| + 1
  {
    && Dispatched(ps[i], rs[i], outs[i], ps[i + 1], picks[i]) && rs[i + 1] == NextRemaining(rs[i])
    && outs[i + 1] == if picks[i] == -1 then outs[i] else picks[i]
  }

  // The dispatches of a run in a ring that stays the same: the priorities around the ring, the
  // counter and the number of the current environment before each, and the member chosen in each.
  ghost predicate IsRun(ps: seq<seq<nat>>, rs: seq<int>, outs: seq<int>, picks: seq<int>) {
    && |ps| == |rs| == |outs| == |picks| + 1
    && forall i :: 0 <= i < |picks| ==> IsDispatch(ps, rs, outs, picks, i)
  }

  // Calling sched_yield n times makes such a run.
  method YieldTimes(k: Kernel, n: nat)
    returns (ghost ps: seq<seq<nat>>, ghost rs: seq<int>, ghost outs: seq<int>, ghost picks: seq<int>)
    requires k.Valid() && k.ring != [] && k.cur != null && k.cur in k.envs
    modifies k`remaining, k`cur, k.envs`pri, k.envs`runs
    ensures k.Valid() && k.ring == old(k.ring)
    ensures IsRun(ps, rs, outs, picks) && |picks| == n
    ensures ps[0] == old(Priorities(k)) && rs[0] == old(k.remaining) && IsMember(k.ring, old(k.cur), outs[0])
    ensures ps[n] == Priorities(k) && rs[n] == k.remaining && k.cur != null && IsMember(k.ring, k.cur, outs[n])
  {
    hide Kernel.Valid, Dispatched;
    ghost var out := NumberOf(k, k.cur);
    ps, rs, outs, picks := [Priorities(k)], [k.remaining], [out], [];
    var i := 0;
    while i < n
      invariant 0 <= i <= n && k.Valid() && k.ring == old(k.ring) && k.cur != null && k.cur in k.envs
      invariant IsRun(ps, rs, outs, picks) && |picks| == i
      invariant ps[0] == old(Priorities(k)) && rs[0] == old(k.remaining) && IsMember(k.ring, old(k.cur), outs[0])
      invariant ps[i] == Priorities(k) && rs[i] == k.remaining && IsMember(k.ring, k.cur, outs[i])
    {
      ghost var cur := k.cur;
      ghost var from, pick;
      from, pick := Yield(k);
      OneNumber(k, cur, from, outs[i]);
      out := if pick == -1 then outs[i] else pick;
      PickIsMember(k, pick, ps[i], rs[i], from, Priorities(k));
      RunGrows(ps, rs, outs, picks, Priorities(k), k.remaining, out, pick);
      ps, rs, outs, picks := ps + [Priorities(k)], rs + [k.remaining], outs + [out], picks + [pick];
      i := i + 1;
    }
  }

  lemma OneNumber(k: Kernel, e: Env, i: int, j: int)
    requires k.Valid() && IsMember(k.ring, e, i) && IsMember(k.ring, e, j)
    ensures i == j
  {
  }

  lemma PickIsMember(k: Kernel, pick: int, p: seq<nat>, remaining: int, out: int, q: seq<nat>)
    requires k.Valid() && |p| == |k.ring| && Dispatched(p, remaining, out, q, pick)
    ensures pick != -1 ==> 0 <= pick < |k.ring| && k.ring[pick] in k.envs
  {
  }

  lemma RunGrows(ps: seq<seq<nat>>, rs: seq<int>, outs: seq<int>, picks: seq<int>, q: seq<nat>, r: int, out: int, pick: int)
    requires IsRun(ps, rs, outs, picks) && r == NextRemaining(rs[|picks|])
    requires Dispatched(ps[|picks|], rs[|picks|], outs[|picks|], q, pick) && out == if pick == -1 then outs[|picks|] else pick
    ensures IsRun(ps + [q], rs + [r], outs + [out], picks + [pick])
  {
    hide Dispatched;
    forall i | 0 <= i < |picks| + 1
      ensures IsDispatch(ps + [q], rs + [r], outs + [out], picks + [pick], i)
    {
      if i < |picks| {
        assert IsDispatch(ps, rs, outs, picks, i);
      }
    }
  }

  // Once the counter has been set to 0 or below, as receiving a message does, no boost comes any more:
  // over every run no priority rises.
  lemma {:induction false} NoMoreBoosts(ps: seq<seq<nat>>, rs: seq<int>, outs: seq<int>, picks: seq<int>, t: nat, j: nat)
    requires IsRun(ps, rs, outs, picks) && rs[0] <= 0 && t <= |picks| && j < |ps[0]|
    ensures rs[t] <= 0 && j < |ps[t]| && ps[t][j] <= ps[0][j]
  {
    if t > 0 {
      NoMoreBoosts(ps, rs, outs, picks, t - 1, j);
      assert IsDispatch(ps, rs, outs, picks, t - 1);
    }
  }

  // ----- members by rank

  // How many of the first n members have a priority above 0.
  function Positives(p: seq<nat>, n: nat): (c: nat)
    requires n <= |p|
    ensures c <= n
  {
    if n == 0 then 0 else Positives(p, n - 1) + if p[n - 1] > 0 then 1 else 0
  }

  lemma {:induction false} PositivesGrow(p: seq<nat>, m: nat, n: nat)
    requires m <= n <= |p|
    ensures Positives(p, m) <= Positives(p, n)
    ensures m < n && p[m] > 0 ==> Positives(p, m) < Positives(p, n)
  {
    if m < n {
      PositivesGrow(p, m, n - 1);
    }
  }

  lemma {:induction false} SamePositives(p: seq<nat>, q: seq<nat>, n: nat)
    requires n <= |p| == |q| && forall j :: 0 <= j < n ==> (q[j] > 0 <==> p[j] > 0)
    ensures Positives(q, n) == Positives(p, n)
  {
    if n > 0 {
      SamePositives(p, q, n - 1);
    }
  }

  // The member with a priority above 0 that k others precede.
  lemma {:induction false} OfRank(p: seq<nat>, n: nat, k: nat) returns (j: nat)
    requires n <= |p| && k < Positives(p, n)
    ensures j < n && p[j] > 0 && Positives(p, j) == k
  {
    if p[n - 1] > 0 && Positives(p, n - 1) == k {
      j := n - 1;
    } else {
      j := OfRank(p, n - 1, k);
    }
  }

  // ----- the first four

  // The priorities of the first four members with one above 0; 0 where there are fewer.
  datatype Four = Four(a: nat, b: nat, c: nat, d: nat)

  function Val(t: Four, k: nat): nat {
    match k
    case 0 => t.a
    case 1 => t.b
    case 2 => t.c
    case 3 => t.d
    case _ => 0
  }

  // The first of the highest.
  function First(t: Four): (k: nat)
    ensures k < 4
    ensures forall i :: 0 <= i < 4 ==> Val(t, i) <= Val(t, k)
    ensures forall i :: 0 <= i < k ==> Val(t, i) < Val(t, k)
  {
    if t.a >= t.b && t.a >= t.c && t.a >= t.d then 0
    else if t.b >= t.c && t.b >= t.d then 1
    else if t.c >= t.d then 2
    else 3
  }

  function Lowered(t: Four, k: int): Four {
    match k
    case 0 => t.(a := Demoted(t.a))
    case 1 => t.(b := Demoted(t.b))
    case 2 => t.(c := Demoted(t.c))
    case 3 => t.(d := Demoted(t.d))
    case _ => t
  }

  function Lifted(t: Four): Four {
    Four(Boosted(t.a), Boosted(t.b), Boosted(t.c), Boosted(t.d))
  }

  function TickedFour(r: int, t: Four): Four {
    if r == 1 then Lifted(t) else t
  }

  // p has these priorities at its first four, and nothing above the highest one behind them.
  ghost predicate Shows(p: seq<nat>, t: Four) {
    && (forall j :: 0 <= j < |p| ==> ShowsAt(p, t, j))
    && (forall k :: 0 <= k < 4 ==> HasRank(t, Positives(p, |p|), k))
  }

  predicate ShowsAt(p: seq<nat>, t: Four, j: nat)
    requires j < |p|
  {
    p[j] > 0 ==> if Positives(p, j) < 4 then p[j] == Val(t, Positives(p, j)) else p[j] <= MAX_PRIORITY
  }

  predicate HasRank(t: Four, m: nat, k: nat) {
    Val(t, k) > 0 <==> k < m
  }

  // The rank of member out, -1 when it is none of those with a priority above 0.
  function RankOf(p: seq<nat>, out: int): int {
    if 0 <= out < |p| && p[out] > 0 then Positives(p, out) else -1
  }

  // When there are members behind the first four, one of the four has the highest priority.
  predicate OneIsHigh(t: Four) {
    t.d > 0 ==> Val(t, First(t)) >= MAX_PRIORITY
  }

  // The first four of m members right after a boost.
  function AllHigh(m: nat): (t: Four) {
    Four(if m > 0 then 5 else 0, if m > 1 then 5 else 0, if m > 2 then 5 else 0, if m > 3 then 5 else 0)
  }

  lemma ShowsBoosted(p: seq<nat>)
    ensures Shows(Ticked(1, p), AllHigh(Positives(p, |p|)))
  {
    hide Positives;
    var m, b := Positives(p, |p|), Ticked(1, p);
    SamePositives(p, b, |p|);
    forall j | 0 <= j < |p|
      ensures ShowsAt(b, AllHigh(m), j)
    {
      PositivesGrow(b, j, |b|);
    }
  }

  // One dispatch on the first four: what is chosen, and what is left.
  lemma DispatchOfFour(p: seq<nat>, r: int, out: int, q: seq<nat>, pick: int, t: Four)
    requires Dispatched(p, r, out, q, pick) && Shows(Ticked(r, p), t) && t.a > 0 && OneIsHigh(t)
    ensures 0 <= pick < |p| == |q| && RankOf(p, pick) == RankOf(q, pick) == First(t)
    ensures Shows(q, Lowered(t, RankOf(p, out)))
    ensures forall j :: 0 <= j < |p| ==> RankOf(q, j) == RankOf(p, j)
  {
    hide Positives, Shows, First, OneIsHigh, IsFirstHighest, Lowered;
    var b := Ticked(r, p);
    PickOfFour(b, pick, t);
    forall j | 0 <= j < |p|
      ensures RankOf(q, j) == RankOf(b, j) == RankOf(p, j)
    {
      SamePositives(p, b, j);
      SamePositives(b, q, j);
    }
    ShowsLowered(b, out, q, t);
  }

  lemma PickOfFour(b: seq<nat>, pick: int, t: Four)
    requires IsFirstHighest(b, pick) && Shows(b, t) && t.a > 0 && OneIsHigh(t)
    ensures 0 <= pick < |b| && RankOf(b, pick) == First(t)
  {
    hide Positives, First;
    var k := First(t);
    assert Val(t, 0) > 0 && Val(t, k) > 0 && HasRank(t, Positives(b, |b|), k);
    var j := OfRank(b, |b|, k);
    assert ShowsAt(b, t, j);
    forall i | 0 <= i < |b|
      ensures b[i] <= b[j] && (i < j ==> b[i] < b[j])
    {
      IsBeaten(b, t, j, i);
    }
    HighestIsUnique(b, pick, j);
  }

  lemma IsBeaten(b: seq<nat>, t: Four, j: nat, i: nat)
    requires Shows(b, t) && OneIsHigh(t) && i < |b| && j < |b| && b[j] > 0
    requires Positives(b, j) == First(t) && b[j] == Val(t, First(t))
    ensures b[i] <= b[j] && (i < j ==> b[i] < b[j])
  {
    hide Positives, First, Val;
    assert ShowsAt(b, t, i);
    if b[i] > 0 {
      if i < j {
        PositivesGrow(b, i, j);
      } else if Positives(b, i) >= 4 {
        PositivesGrow(b, i, |b|);
        assert HasRank(t, Positives(b, |b|), 3);
        assert Val(t, 3) == t.d by {
          LastVal(t);
        }
      }
    }
  }

  lemma LastVal(t: Four)
    ensures Val(t, 3) == t.d
  {
  }

  lemma LoweredVals(t: Four, k: int, i: nat)
    requires i < 4
    ensures Val(Lowered(t, k), i) == if k == i then Demoted(Val(t, i)) else Val(t, i)
  {
  }

  lemma ShowsLowered(b: seq<nat>, out: int, q: seq<nat>, t: Four)
    requires Shows(b, t) && |q| == |b|
    requires forall j :: 0 <= j < |b| ==> q[j] == if j == out then Demoted(b[j]) else b[j]
    ensures Shows(q, Lowered(t, RankOf(b, out)))
  {
    hide Positives, Val, Lowered;
    var o := RankOf(b, out);
    SamePositives(b, q, |b|);
    forall j | 0 <= j < |q|
      ensures ShowsAt(q, Lowered(t, o), j)
    {
      assert ShowsAt(b, t, j);
      SamePositives(b, q, j);
      if q[j] > 0 && Positives(q, j) < 4 {
        LoweredVals(t, o, Positives(q, j));
        SameRank(b, out, j);
      }
    }
    forall k | 0 <= k < 4
      ensures HasRank(Lowered(t, o), Positives(q, |q|), k)
    {
      assert HasRank(t, Positives(b, |b|), k);
      LoweredVals(t, o, k);
    }
  }

  // Members with a priority above 0 have different ranks.
  lemma SameRank(p: seq<nat>, i: int, j: nat)
    requires j < |p| && p[j] > 0
    ensures RankOf(p, i) == Positives(p, j) <==> i == j
  {
    hide Positives;
    if 0 <= i < |p| && p[i] > 0 {
      if i < j {
        PositivesGrow(p, i, j);
      } else if j < i {
        PositivesGrow(p, j, i);
      }
    }
  }

  // ----- what the dispatches do to the first four

  // The first four before a dispatch, after the boost if one is due; the counter, and the rank of the
  // outgoing member, -1 when it is none of the four.
  datatype Stage = Stage(t: Four, r: int, o: int)

  function After(g: Stage, m: nat): Stage {
    var r := NextRemaining(g.r);
    Stage(if r == 1 then AllHigh(m) else Lowered(g.t, g.o), r, First(g.t))
  }

  function Later(g: Stage, m: nat, n: nat): Stage
    decreases n
  {
    if n == 0 then g else Later(After(g, m), m, n - 1)
  }

  // In each of the next n dispatches one of the first four is chosen.
  predicate IsFine(g: Stage, m: nat, n: nat)
    decreases n
  {
    n == 0 || (g.t.a > 0 && OneIsHigh(g.t) && IsFine(After(g, m), m, n - 1))
  }

  predicate IsPicked(g: Stage, m: nat, n: nat, k: nat)
    decreases n
  {
    n > 0 && (First(g.t) == k || IsPicked(After(g, m), m, n - 1, k))
  }

  // Right at a boost.
  function Start(m: nat, o: int): Stage {
    Stage(AllHigh(m), 1, o)
  }

  // The outgoing member at the next boost.
  function NextOut(m: nat, o: int): int {
    Later(Start(m, o), m, BOOST_PERIOD).o
  }

  // A period from one boost to the next, whoever goes out first.
  lemma PeriodIsFine(m: nat, o: int)
    requires 1 <= m <= 4 && -1 <= o < m
    ensures IsFine(Start(m, o), m, BOOST_PERIOD)
    ensures Later(Start(m, o), m, BOOST_PERIOD) == Start(m, NextOut(m, o)) && 0 <= NextOut(m, o) < m
  {
    hide IsFine, Later, Start, NextOut;
    match m {
      case 1 => PeriodOfOne(o);
      case 2 => PeriodOfTwo(o);
      case 3 => PeriodOfThree(o);
      case 4 => PeriodOfFour(o); FineOfFour(o);
    }
  }

  lemma PeriodOfOne(o: int)
    requires -1 <= o < 1
    ensures IsFine(Start(1, o), 1, 5) && Later(Start(1, o), 1, 5) == Start(1, NextOut(1, o)) && NextOut(1, o) == 0
    ensures IsPicked(Start(1, o), 1, 5, 0)
  {
  }

  lemma PeriodOfTwo(o: int)
    requires -1 <= o < 2
    ensures IsFine(Start(2, o), 2, 5) && Later(Start(2, o), 2, 5) == Start(2, NextOut(2, o)) && 0 <= NextOut(2, o) < 2
    ensures IsPicked(Start(2, o), 2, 5, 0) && IsPicked(Start(2, o), 2, 5, 1)
  {
  }

  lemma PeriodOfThree(o: int)
    requires -1 <= o < 3
    ensures IsFine(Start(3, o), 3, 5)
    ensures Later(Start(3, o), 3, 5) == Start(3, NextOut(3, o)) && NextOut(3, o) == if o > 0 then 1 else 2
  {
  }

  lemma PicksOfThree(o: int)
    requires -1 <= o < 3
    ensures IsPicked(Start(3, o), 3, 5, 0) && IsPicked(Start(3, o), 3, 5, 1) && (o != 2 ==> IsPicked(Start(3, o), 3, 5, 2))
  {
  }

  lemma PeriodOfFour(o: int)
    requires -1 <= o < 4
    ensures Later(Start(4, o), 4, 5) == Start(4, NextOut(4, o)) && NextOut(4, o) == if o == 1 || o == 2 then 3 else 2
  {
  }

  lemma FineOfFour(o: int)
    requires -1 <= o < 4
    ensures IsFine(Start(4, o), 4, 5)
  {
  }

  lemma PicksOfFour(o: int)
    requires -1 <= o < 4
    ensures IsPicked(Start(4, o), 4, 5, 0) && (o != 1 ==> IsPicked(Start(4, o), 4, 5, 1))
    ensures o != 2 ==> IsPicked(Start(4, o), 4, 5, 2)
    ensures o == 1 || o == 2 ==> IsPicked(Start(4, o), 4, 5, 3)
  {
  }

  lemma {:induction false} PickedLater(g: Stage, m: nat, n: nat, l: nat, k: nat)
    requires IsPicked(g, m, n, k) || IsPicked(Later(g, m, n), m, l, k)
    ensures IsPicked(g, m, n + l, k)
    decreases n
  {
    if n > 0 && First(g.t) != k {
      PickedLater(After(g, m), m, n - 1, l, k);
    }
  }

  // In two periods each of the first four is chosen.
  lemma TwoPeriods(m: nat, o: int, k: nat)
    requires 1 <= m <= 4 && -1 <= o < m && k < m
    ensures IsPicked(Start(m, o), m, 2 * BOOST_PERIOD, k)
  {
    hide IsPicked, IsFine, Later, Start, NextOut;
    var next := NextOut(m, o);
    PeriodIsFine(m, o);
    match m {
      case 1 => PeriodOfOne(o);
      case 2 => PeriodOfTwo(o);
      case 3 => PeriodOfThree(o); PicksOfThree(o); PicksOfThree(next);
      case 4 => PeriodOfFour(o); PicksOfFour(o); PicksOfFour(next);
    }
    PickedLater(Start(m, o), m, BOOST_PERIOD, BOOST_PERIOD, k);
  }

  // ----- the stages of a run

  lemma {:induction false} LaterThen(g: Stage, m: nat, n: nat, l: nat)
    ensures Later(g, m, n + l) == Later(Later(g, m, n), m, l)
    decreases n
  {
    if n > 0 {
      LaterThen(After(g, m), m, n - 1, l);
    }
  }

  lemma {:induction false} FineAt(g: Stage, m: nat, n: nat, i: nat)
    requires IsFine(g, m, n) && i < n
    ensures Later(g, m, i).t.a > 0 && OneIsHigh(Later(g, m, i).t)
    decreases i
  {
    if i > 0 {
      FineAt(After(g, m), m, n - 1, i - 1);
    }
  }

  // However long a run, one of the first four is chosen in every dispatch.
  lemma {:induction false} AlwaysFine(m: nat, o: int, i: nat)
    requires 1 <= m <= 4 && -1 <= o < m
    ensures Later(Start(m, o), m, i).t.a > 0 && OneIsHigh(Later(Start(m, o), m, i).t)
    decreases i
  {
    hide IsFine, OneIsHigh, Later, Start;
    PeriodIsFine(m, o);
    if i < BOOST_PERIOD {
      FineAt(Start(m, o), m, BOOST_PERIOD, i);
    } else {
      AlwaysFine(m, NextOut(m, o), i - BOOST_PERIOD);
      LaterThen(Start(m, o), m, BOOST_PERIOD, i - BOOST_PERIOD);
    }
  }

  lemma {:induction false} StageAfter(g: Stage, m: nat, n: nat)
    ensures Later(g, m, n + 1) == After(Later(g, m, n), m)
    decreases n
  {
    if n > 0 {
      StageAfter(After(g, m), m, n - 1);
    }
  }

  lemma {:induction false} PickedAt(g: Stage, m: nat, n: nat, k: nat) returns (i: nat)
    requires IsPicked(g, m, n, k)
    ensures i < n && First(Later(g, m, i).t) == k
    decreases n
  {
    if First(g.t) == k {
      i := 0;
    } else {
      i := PickedAt(After(g, m), m, n - 1, k);
      i := i + 1;
    }
  }

  // How many members there are to choose from, as far as it matters.
  function Capped(p: seq<nat>): (m: nat)
    ensures m <= 4
  {
    if Positives(p, |p|) < 4 then Positives(p, |p|) else 4
  }

  function OutRank(p: seq<nat>, out: int): (o: int)
    ensures -1 <= o < 4
  {
    if RankOf(p, out) < 4 then RankOf(p, out) else -1
  }

  // Before a dispatch with priorities p, counter r and outgoing member out the run is at stage g.
  ghost predicate IsAt(p: seq<nat>, r: int, out: int, g: Stage) {
    Shows(Ticked(r, p), g.t) && g.r == r && g.o == OutRank(p, out)
  }

  // The same members of p and q have a priority above 0.
  ghost predicate SameMembers(p: seq<nat>, q: seq<nat>) {
    |p| == |q| && Capped(p) == Capped(q) && forall j :: 0 <= j < |p| ==> RankOf(p, j) == RankOf(q, j)
  }

  lemma DispatchIsStage(p: seq<nat>, r: int, out: int, q: seq<nat>, pick: int, g: Stage)
    requires Dispatched(p, r, out, q, pick) && IsAt(p, r, out, g) && g.t.a > 0 && OneIsHigh(g.t)
    ensures 0 <= pick < |p| && RankOf(p, pick) == First(g.t) && SameMembers(p, q)
    ensures IsAt(q, NextRemaining(r), pick, After(g, Capped(p)))
  {
    hide Shows, OneIsHigh, First, Positives;
    DispatchOfFour(p, r, out, q, pick, g.t);
    forall j | 0 <= j < |p|
      ensures q[j] > 0 <==> p[j] > 0
    {
      assert RankOf(q, j) == RankOf(p, j);
    }
    SamePositives(p, q, |p|);
    ShowsBoosted(q);
    SameLowered(g.t, RankOf(p, out));
  }

  lemma SameLowered(t: Four, k: int)
    ensures k >= 4 ==> Lowered(t, k) == Lowered(t, -1)
  {
  }

  // ----- who is chosen

  // The stage i dispatches after a boost with priorities p and outgoing member out.
  function StageOf(p: seq<nat>, out: int, i: nat): Stage {
    Later(Start(Capped(p), OutRank(p, out)), Capped(p), i)
  }

  // After i dispatches from a boost on, a run is at the stage that only the number of members to
  // choose from and the first outgoing one determine.
  lemma {:induction false} RunIsStaged(ps: seq<seq<nat>>, rs: seq<int>, outs: seq<int>, picks: seq<int>, i: nat)
    requires IsRun(ps, rs, outs, picks) && rs[0] == 1 && i <= |picks| && Capped(ps[0]) > 0
    ensures SameMembers(ps[0], ps[i])
    ensures IsAt(ps[i], rs[i], outs[i], StageOf(ps[0], outs[0], i))
    ensures i < |picks| ==> 0 <= picks[i] < |ps[0]| && RankOf(ps[0], picks[i]) == First(StageOf(ps[0], outs[0], i).t)
  {
    hide IsAt, SameMembers, Dispatched, OneIsHigh, First, Capped, Positives, OutRank;
    var m, o := Capped(ps[0]), OutRank(ps[0], outs[0]);
    var g := Start(m, o);
    FromStart(ps[0], rs[0], outs[0]);
    if i > 0 {
      RunIsStaged(ps, rs, outs, picks, i - 1);
      OneDispatch(ps, rs, outs, picks, i - 1, Later(g, m, i - 1));
      StageAfter(g, m, i - 1);
    }
    if i < |picks| {
      OneDispatch(ps, rs, outs, picks, i, Later(g, m, i));
    }
  }

  lemma FromStart(p: seq<nat>, r: int, out: int)
    requires r == 1 && Capped(p) > 0
    ensures SameMembers(p, p) && IsAt(p, r, out, Start(Capped(p), OutRank(p, out)))
    ensures 1 <= Capped(p) <= 4 && -1 <= OutRank(p, out) < Capped(p)
  {
    hide Positives, Shows;
    ShowsBoosted(p);
    if 0 <= out < |p| && p[out] > 0 {
      PositivesGrow(p, out, |p|);
    }
  }

  lemma OneDispatch(ps: seq<seq<nat>>, rs: seq<int>, outs: seq<int>, picks: seq<int>, i: nat, g: Stage)
    requires IsRun(ps, rs, outs, picks) && rs[0] == 1 && i < |picks| && Capped(ps[0]) > 0
    requires SameMembers(ps[0], ps[i]) && IsAt(ps[i], rs[i], outs[i], g)
    requires g == Later(Start(Capped(ps[0]), OutRank(ps[0], outs[0])), Capped(ps[0]), i)
    ensures 0 <= picks[i] < |ps[0]| && RankOf(ps[0], picks[i]) == First(g.t)
    ensures SameMembers(ps[0], ps[i + 1]) && IsAt(ps[i + 1], rs[i + 1], outs[i + 1], After(g, Capped(ps[0])))
  {
    hide IsAt, Dispatched, OneIsHigh, First, Capped, Positives, OutRank;
    FromStart(ps[0], rs[0], outs[0]);
    AlwaysFine(Capped(ps[0]), OutRank(ps[0], outs[0]), i);
    assert IsDispatch(ps, rs, outs, picks, i);
    DispatchIsStage(ps[i], rs[i], outs[i], ps[i + 1], picks[i], g);
  }

  // What follows a dispatch of a run is a run.
  lemma RunTail(ps: seq<seq<nat>>, rs: seq<int>, outs: seq<int>, picks: seq<int>, s: nat)
    requires IsRun(ps, rs, outs, picks) && s <= |picks|
    ensures IsRun(ps[s..], rs[s..], outs[s..], picks[s..])
  {
    forall i | 0 <= i < |picks| - s
      ensures IsDispatch(ps[s..], rs[s..], outs[s..], picks[s..], i)
    {
      assert IsDispatch(ps, rs, outs, picks, s + i);
    }
  }

  // A member with a priority above 0 that fewer than four such members precede.
  predicate IsOfFirstFour(p: seq<nat>, j: nat)
    requires j < |p|
  {
    p[j] > 0 && Positives(p, j) < 4
  }

  // From a boost on no other member is ever chosen.
  lemma OthersStarve(ps: seq<seq<nat>>, rs: seq<int>, outs: seq<int>, picks: seq<int>, s: nat, t: nat, j: nat)
    requires IsRun(ps, rs, outs, picks) && s <= t < |picks| && rs[s] == 1 && Capped(ps[s]) > 0
    requires j < |ps[s]| && !IsOfFirstFour(ps[s], j)
    ensures picks[t] != j
  {
    hide IsRun, Capped, Positives, OutRank;
    RunTail(ps, rs, outs, picks, s);
    RunSizes(ps, rs, outs, picks);
    RunIsStaged(ps[s..], rs[s..], outs[s..], picks[s..], t - s);
  }

  lemma RunSizes(ps: seq<seq<nat>>, rs: seq<int>, outs: seq<int>, picks: seq<int>)
    requires IsRun(ps, rs, outs, picks)
    ensures |ps| == |rs| == |outs| == |picks| + 1
  {
  }

  // Each of the first four is chosen within two periods of any boost.
  lemma FirstFourAreServed(ps: seq<seq<nat>>, rs: seq<int>, outs: seq<int>, picks: seq<int>, s: nat, j: nat) returns (t: nat)
    requires IsRun(ps, rs, outs, picks) && s + 2 * BOOST_PERIOD <= |picks| && rs[s] == 1
    requires j < |ps[s]| && IsOfFirstFour(ps[s], j)
    ensures s <= t < s + 2 * BOOST_PERIOD && picks[t] == j
  {
    hide IsRun, IsPicked, Later, OutRank;
    RunSizes(ps, rs, outs, picks);
    var p := ps[s];
    PositivesGrow(p, j, |p|);
    FromStart(p, rs[s], outs[s]);
    RunTail(ps, rs, outs, picks, s);
    TwoPeriods(Capped(p), OutRank(p, outs[s]), Positives(p, j));
    var i := PickedAt(Start(Capped(p), OutRank(p, outs[s])), Capped(p), 2 * BOOST_PERIOD, Positives(p, j));
    RunIsStaged(ps[s..], rs[s..], outs[s..], picks[s..], i);
    SameRank(p, picks[s + i], j);
    t := s + i;
  }

  // In a ring that stays the same, from any boost on: a member with a priority above 0 is chosen
  // within two periods exactly when fewer than four such members precede it, and otherwise never.
  lemma ChosenExactly(ps: seq<seq<nat>>, rs: seq<int>, outs: seq<int>, picks: seq<int>, s: nat, j: nat)
    requires IsRun(ps, rs, outs, picks) && s + 2 * BOOST_PERIOD <= |picks| && rs[s] == 1
    requires j < |ps[s]| && ps[s][j] > 0
    ensures (exists t :: s <= t < s + 2 * BOOST_PERIOD && picks[t] == j) <==> Positives(ps[s], j) < 4
    ensures (exists t :: s <= t < |picks| && picks[t] == j) <==> Positives(ps[s], j) < 4
  {
    hide IsRun;
    RunSizes(ps, rs, outs, picks);
    if IsOfFirstFour(ps[s], j) {
      var t := FirstFourAreServed(ps, rs, outs, picks, s, j);
    } else {
      PositivesGrow(ps[s], j, |ps[s]|);
      forall t | s <= t < |picks|
        ensures picks[t] != j
      {
        OthersStarve(ps, rs, outs, picks, s, t, j);
      }
    }
  }

  // ----- a ring with a starving member

  lemma {:induction false} SomeoneIsHighest(p: seq<nat>, n: nat) returns (i: int)
    requires n <= |p|
    ensures IsFirstHighest(p[..n], i)
  {
    if n == 0 {
      i := -1;
    } else {
      i := SomeoneIsHighest(p, n - 1);
      var highest := if i == -1 then 0 else p[i];
      assert p[..n - 1] == p[..n][..n - 1];
      if p[n - 1] > highest {
        i := n - 1;
      }
    }
  }

  // Runs of every length exist.
  lemma {:induction false} RunExists(p: seq<nat>, r: int, out: int, n: nat)
    returns (ps: seq<seq<nat>>, rs: seq<int>, outs: seq<int>, picks: seq<int>)
    ensures IsRun(ps, rs, outs, picks) && |picks| == n && ps[0] == p && rs[0] == r && outs[0] == out
  {
    if n == 0 {
      ps, rs, outs, picks := [p], [r], [out], [];
    } else {
      ps, rs, outs, picks := RunExists(p, r, out, n - 1);
      var b, o := Ticked(rs[n - 1], ps[n - 1]), outs[n - 1];
      var pick := SomeoneIsHighest(b, |b|);
      assert b[..|b|] == b;
      var q := seq(|b|, j requires 0 <= j < |b| => if j == o then Demoted(b[j]) else b[j]);
      RunGrows(ps, rs, outs, picks, q, NextRemaining(rs[n - 1]), if pick == -1 then o else pick, pick);
      ps, rs, outs, picks :=
        ps + [q], rs + [NextRemaining(rs[n - 1])], outs + [if pick == -1 then o else pick], picks + [pick];
    }
  }

  // Five members of the highest priority: however long one waits, the fifth is not chosen.
  lemma FifthStarves(n: nat) returns (ps: seq<seq<nat>>, rs: seq<int>, outs: seq<int>, picks: seq<int>)
    ensures IsRun(ps, rs, outs, picks) && |picks| == n && ps[0] == [5, 5, 5, 5, 5] && rs[0] == 1
    ensures forall t :: 0 <= t < n ==> picks[t] != 4
  {
    ps, rs, outs, picks := RunExists([5, 5, 5, 5, 5], 1, 0, n);
    assert Positives([5, 5, 5, 5, 5], 4) == 4 && Positives([5, 5, 5, 5, 5], 5) == 5;
    forall t | 0 <= t < n
      ensures picks[t] != 4
    {
      OthersStarve(ps, rs, outs, picks, 0, t, 4);
    }
  }
}
