// The device banker of the kernel: claims, requests, and what they keep.
module Banker {
  import opened Words
  import opened Safety

  const LIMIT := 0x8000_0000   // one more than the largest int

  // The tables, by resource and by customer.
  datatype Bank = Bank(all: Row, available: Row, maximum: seq<Row>, allocation: seq<Row>, need: seq<Row>, status: seq<int>)

  predicate RowsOf(rows: seq<Row>, n: nat, m: nat) {
    |rows| == n && forall c :: 0 <= c < n ==> |rows[c]| == m
  }

  predicate Sized(b: Bank, n: nat, m: nat) {
    && |b.all| == |b.available| == m && |b.status| == n
    && RowsOf(b.maximum, n, m) && RowsOf(b.allocation, n, m) && RowsOf(b.need, n, m)
  }

  // Who has finished: status 1.
  function DoneOf(status: seq<int>): (d: seq<bool>)
    ensures |d| == |status|
  {
    seq(|status|, c requires 0 <= c < |status| => status[c] == 1)
  }

  // What all customers hold of resource n.
  function Total(held: seq<Row>, n: nat): int {
    if held == [] then 0
    else (if n < |held[0]| then held[0][n] else 0) + Total(held[1..], n)
  }

  // Customer c needs what it has claimed and does not hold yet; one that has finished holds nothing.
  predicate CustomerOk(b: Bank, c: nat)
    requires c < |b.maximum| == |b.allocation| == |b.need| == |b.status|
  {
    && |b.maximum[c]| == |b.allocation[c]| == |b.need[c]|
    && IsGain(b.allocation[c]) && IsGain(b.need[c])
    && (forall n :: 0 <= n < |b.need[c]| ==> b.need[c][n] + b.allocation[c][n] == b.maximum[c][n] < LIMIT)
    && (b.status[c] == 1 ==> forall n :: 0 <= n < |b.need[c]| ==> b.allocation[c][n] == 0)
  }

  // Every unit of resource n is either available or held.
  predicate ResourceOk(b: Bank, n: nat)
    requires n < |b.all| == |b.available|
  {
    b.available[n] >= 0 && b.available[n] + Total(b.allocation, n) == b.all[n] < LIMIT
  }

  ghost predicate BankOk(b: Bank, n: nat, m: nat) {
    && Sized(b, n, m)
    && (forall c :: 0 <= c < n ==> CustomerOk(b, c))
    && (forall r :: 0 <= r < m ==> ResourceOk(b, r))
    && IsSafe(b.need, b.allocation, b.available, DoneOf(b.status))
  }

  lemma {:induction false} TotalOfUpdate(held: seq<Row>, c: nat, row: Row, n: nat)
    requires c < |held| && n < |row| && n < |held[c]|
    ensures Total(held[c := row], n) == Total(held, n) - held[c][n] + row[n]
  {
    if c == 0 {
      assert held[c := row][1..] == held[1..];
    } else {
      assert held[c := row][1..] == held[1..][c - 1 := row];
      TotalOfUpdate(held[1..], c - 1, row, n);
    }
  }

  lemma {:induction false} TotalIsGain(held: seq<Row>, n: nat)
    requires forall c :: 0 <= c < |held| ==> IsGain(held[c])
    ensures Total(held, n) >= 0
  {
    if held != [] {
      TotalIsGain(held[1..], n);
    }
  }

  // ----- the tables after a grant

  predicate InRange(b: Bank, c: nat, d: nat, r: u32)
    requires c < |b.need| && d < |b.need[c]| && d < |b.available|
  {
    r <= b.need[c][d] && r <= b.available[d]
  }

  function Moved(rows: seq<Row>, c: nat, d: nat, x: int): (q: seq<Row>)
    requires c < |rows| && d < |rows[c]|
    ensures |q| == |rows|
  {
    rows[c := rows[c][d := x]]
  }

  function Granted(b: Bank, c: nat, d: nat, r: u32): Bank
    requires c < |b.need| == |b.allocation| && d < |b.need[c]| == |b.allocation[c]| && d < |b.available|
  {
    b.(need := Moved(b.need, c, d, Int32(b.need[c][d] - r)),
       allocation := Moved(b.allocation, c, d, Int32(b.allocation[c][d] + r)),
       available := b.available[d := Int32(b.available[d] - r)])
  }

  // The state the safety check looks at: the grant only if the request is in range.
  function Considered(b: Bank, c: nat, d: nat, r: u32): Bank
    requires c < |b.need| == |b.allocation| && d < |b.need[c]| == |b.allocation[c]| && d < |b.available|
  {
    if InRange(b, c, d, r)
    then b.(need := Moved(b.need, c, d, b.need[c][d] - r),
            allocation := Moved(b.allocation, c, d, b.allocation[c][d] + r),
            available := b.available[d := b.available[d] - r])
    else b
  }

  ghost predicate SafeState(b: Bank)
    requires |b.need| == |b.allocation|
  {
    IsSafe(b.need, b.allocation, b.available, DoneOf(b.status))
  }

  // In range nothing wraps around.
  lemma GrantedInRange(b: Bank, n: nat, m: nat, c: nat, d: nat, r: u32)
    requires BankOk(b, n, m) && c < n && d < m && InRange(b, c, d, r)
    ensures Granted(b, c, d, r) == Considered(b, c, d, r)
  {
    hide IsSafe;
    assert CustomerOk(b, c) && ResourceOk(b, d);
    forall k | 0 <= k < n
      ensures IsGain(b.allocation[k])
    {
      assert CustomerOk(b, k);
    }
    TotalIsGain(b.allocation, d);
    assert 0 <= b.need[c][d] - r && b.allocation[c][d] + r <= b.maximum[c][d];
  }

  // A grant that passes the check keeps the bank in order: no unit is created or lost, no customer
  // gets more than it claimed, and the state stays safe.
  lemma GrantKeepsBank(b: Bank, n: nat, m: nat, c: nat, d: nat, r: u32)
    requires BankOk(b, n, m) && c < n && d < m && InRange(b, c, d, r) && b.status[c] != 1
    requires SafeState(Considered(b, c, d, r))
    ensures BankOk(Granted(b, c, d, r), n, m)
  {
    GrantedInRange(b, n, m, c, d, r);
    var g := Granted(b, c, d, r);
    forall k | 0 <= k < n
      ensures CustomerOk(g, k)
    {
      assert CustomerOk(b, k);
    }
    forall k | 0 <= k < m
      ensures ResourceOk(g, k)
    {
      assert ResourceOk(b, k);
      TotalOfUpdate(b.allocation, c, g.allocation[c], k);
    }
  }

  // What giving back y units of resource d does to needs, holdings and what is available.
  function Raised(r: Row, d: nat, y: int): (q: Row)
    requires d < |r|
    ensures |q| == |r|
  {
    r[d := r[d] + y]
  }

  // Giving back part of what it holds, a customer can still finish when its turn comes, and so can
  // all others.
  lemma {:induction false} GivingBackIsSafe(need: seq<Row>, held: seq<Row>, free: Row, order: seq<nat>, c: nat, d: nat, y: nat)
    requires |need| == |held| && c < |need| && d < |free| && |need[c]| == |held[c]| == |free|
    requires forall k :: 0 <= k < |held| ==> |held[k]| == |free|
    requires forall i, j :: 0 <= i < j < |order| ==> order[i] != order[j]
    requires Completes(need, held, free, order)
    ensures Completes(need[c := Raised(need[c], d, y)], held[c := Raised(held[c], d, 0 - y)], Raised(free, d, y), order)
    decreases |order|
  {
    var want, hold, more := need[c := Raised(need[c], d, y)], held[c := Raised(held[c], d, 0 - y)], Raised(free, d, y);
    if order != [] {
      var o := order[0];
      if o == c {
        assert Plus(more, hold[c]) == Plus(free, held[c]);
        assert c !in order[1..];
        ElsewhereOrder(need, want, held, hold, Plus(free, held[c]), order[1..]);
      } else {
        assert Plus(more, held[o]) == Raised(Plus(free, held[o]), d, y);
        GivingBackIsSafe(need, held, Plus(free, held[o]), order[1..], c, d, y);
      }
    }
  }

  // Only the rows of the customers in the order matter.
  lemma {:induction false} ElsewhereOrder(need: seq<Row>, want: seq<Row>, held: seq<Row>, hold: seq<Row>, free: Row, order: seq<nat>)
    requires |need| == |want| == |held| == |hold| && Completes(need, held, free, order)
    requires forall c :: c in order && c < |need| ==> want[c] == need[c] && hold[c] == held[c]
    ensures Completes(want, hold, free, order)
    decreases |order|
  {
    if order != [] {
      ElsewhereOrder(need, want, held, hold, Plus(free, held[order[0]]), order[1..]);
    }
  }

  // A request of 2^32 - y takes y units back from the customer.
  predicate IsGiveBack(b: Bank, c: nat, d: nat, r: u32)
    requires c < |b.allocation| && d < |b.allocation[c]|
  {
    r >= LIMIT && 0x1_0000_0000 - r <= b.allocation[c][d]
  }

  lemma GiveBackKeepsBank(b: Bank, n: nat, m: nat, c: nat, d: nat, r: u32)
    requires BankOk(b, n, m) && c < n && d < m && IsGiveBack(b, c, d, r)
    ensures BankOk(Granted(b, c, d, r), n, m)
  {
    hide IsSafe;
    var g, y := Granted(b, c, d, r), 0x1_0000_0000 - r;
    assert CustomerOk(b, c) && ResourceOk(b, d);
    HeldIsAtMostAll(b, n, m, c, d);
    assert Int32(b.need[c][d] - r) == b.need[c][d] + y && Int32(b.allocation[c][d] + r) == b.allocation[c][d] - y;
    assert Int32(b.available[d] - r) == b.available[d] + y;
    assert g.need == b.need[c := Raised(b.need[c], d, y)];
    assert g.allocation == b.allocation[c := Raised(b.allocation[c], d, 0 - y)];
    assert g.available == Raised(b.available, d, y);
    forall k | 0 <= k < n
      ensures CustomerOk(g, k)
    {
      assert CustomerOk(b, k);
    }
    forall k | 0 <= k < m
      ensures ResourceOk(g, k)
    {
      assert ResourceOk(b, k);
      TotalOfUpdate(b.allocation, c, g.allocation[c], k);
    }
    SafeAfterGivingBack(b, g, n, m, c, d, y);
  }

  lemma SafeAfterGivingBack(b: Bank, g: Bank, n: nat, m: nat, c: nat, d: nat, y: nat)
    requires Sized(b, n, m) && c < n && d < m && SafeState(b)
    requires g == b.(need := b.need[c := Raised(b.need[c], d, y)],
                     allocation := b.allocation[c := Raised(b.allocation[c], d, 0 - y)],
                     available := Raised(b.available, d, y))
    ensures SafeState(g)
  {
    hide Completes;
    var order :| IsOrder(DoneOf(b.status), order) && Completes(b.need, b.allocation, b.available, order);
    GivingBackIsSafe(b.need, b.allocation, b.available, order, c, d, y);
  }

  // Nobody holds more than there is.
  lemma HeldIsAtMostAll(b: Bank, n: nat, m: nat, c: nat, d: nat)
    requires BankOk(b, n, m) && c < n && d < m
    ensures b.available[d] + b.allocation[c][d] <= b.all[d]
  {
    hide IsSafe;
    assert ResourceOk(b, d);
    forall k | 0 <= k < n
      ensures IsGain(b.allocation[k])
    {
      assert CustomerOk(b, k);
    }
    var rest := b.allocation[c := Nothing(m)];
    TotalOfUpdate(b.allocation, c, Nothing(m), d);
    TotalIsGain(rest, d);
  }

  // A request beyond what the customer has claimed or what is available is not considered by the
  // check at all: it is granted, since the state is safe. The tables are right afterwards exactly
  // when its amount, as a signed number, gives back no more than the customer holds.
  lemma OutOfRangeIsGranted(b: Bank, n: nat, m: nat, c: nat, d: nat, r: u32)
    requires BankOk(b, n, m) && c < n && d < m && !InRange(b, c, d, r)
    ensures SafeState(Considered(b, c, d, r))
    ensures BankOk(Granted(b, c, d, r), n, m) <==> IsGiveBack(b, c, d, r)
  {
    hide IsSafe;
    assert CustomerOk(b, c) && ResourceOk(b, d);
    var g := Granted(b, c, d, r);
    if IsGiveBack(b, c, d, r) {
      GiveBackKeepsBank(b, n, m, c, d, r);
    } else if r >= LIMIT {
      assert g.allocation[c][d] < 0;
      assert !CustomerOk(g, c);
    } else if r > b.need[c][d] {
      assert g.need[c][d] < 0;
      assert !CustomerOk(g, c);
    } else {
      assert g.available[d] < 0;
      assert !ResourceOk(g, d);
    }
  }

  // ----- claims

  function Claimed(b: Bank, c: nat, require: Row): Bank
    requires c < |b.need| == |b.allocation| == |b.maximum| == |b.status|
  {
    b.(need := b.need[c := require], maximum := b.maximum[c := require],
       allocation := b.allocation[c := Nothing(|require|)], status := b.status[c := 0])
  }

  function Nothing(m: nat): (r: Row)
    ensures |r| == m && forall n :: 0 <= n < m ==> r[n] == 0
  {
    seq(m, _ => 0)
  }

  // What is available once the customers in order have finished.
  function After(held: seq<Row>, free: Row, order: seq<nat>): (r: Row)
    ensures |r| == |free|
    decreases |order|
  {
    if order == [] then free
    else After(held, if order[0] < |held| then Plus(free, held[order[0]]) else free, order[1..])
  }

  lemma {:induction false} FinishLast(need: seq<Row>, held: seq<Row>, free: Row, order: seq<nat>, c: nat)
    requires |need| == |held| && c < |need| && Completes(need, held, free, order)
    requires Fits(need[c], After(held, free, order))
    ensures Completes(need, held, free, order + [c])
    decreases |order|
  {
    if order == [] {
      assert order + [c] == [c];
    } else {
      FinishLast(need, held, Plus(free, held[order[0]]), order[1..], c);
      assert (order + [c])[1..] == order[1..] + [c];
    }
  }

  // The needs of customers outside the order do not matter, nor do rows that stay the same.
  lemma {:induction false} SameOrder(need: seq<Row>, want: seq<Row>, held: seq<Row>, free: Row, order: seq<nat>)
    requires |need| == |want| == |held| && Completes(need, held, free, order)
    requires forall c :: c in order && c < |need| ==> want[c] == need[c]
    ensures Completes(want, held, free, order)
    decreases |order|
  {
    if order != [] {
      SameOrder(need, want, held, Plus(free, held[order[0]]), order[1..]);
    }
  }

  // Once everyone that holds something has finished, everything is available.
  lemma {:induction false} AfterIsTotal(held: seq<Row>, free: Row, order: seq<nat>, n: nat)
    requires n < |free| && forall c :: 0 <= c < |held| ==> |held[c]| == |free|
    requires forall i, j :: 0 <= i < j < |order| ==> order[i] != order[j]
    requires forall c :: c in order ==> c < |held|
    requires forall c :: 0 <= c < |held| && c !in order ==> held[c][n] == 0
    ensures After(held, free, order)[n] == free[n] + Total(held, n)
    decreases |order|
  {
    if order == [] {
      NothingHeld(held, n);
    } else {
      var o := order[0];
      assert o in order && forall c :: c in order[1..] ==> c in order;
      var rest := held[o := Nothing(|free|)];
      TotalOfUpdate(held, o, Nothing(|free|), n);
      AfterIsTotal(rest, Plus(free, held[o]), order[1..], n);
      SameAfter(held, rest, Plus(free, held[o]), order[1..]);
    }
  }

  lemma {:induction false} SameAfter(held: seq<Row>, other: seq<Row>, free: Row, order: seq<nat>)
    requires |held| == |other| && forall c :: c in order && c < |held| ==> other[c] == held[c]
    ensures After(other, free, order) == After(held, free, order)
    decreases |order|
  {
    if order != [] {
      SameAfter(held, other, if order[0] < |held| then Plus(free, held[order[0]]) else free, order[1..]);
    }
  }

  lemma {:induction false} NothingHeld(held: seq<Row>, n: nat)
    requires forall c :: 0 <= c < |held| ==> n < |held[c]| && held[c][n] == 0
    ensures Total(held, n) == 0
  {
    if held != [] {
      NothingHeld(held[1..], n);
    }
  }

  // A customer that holds nothing and claims no more than there is can go last.
  lemma ClaimIsSafe(b: Bank, n: nat, m: nat, c: nat, require: Row)
    requires BankOk(b, n, m) && c < n && Fits(require, b.all) && b.allocation[c] == Nothing(m)
    ensures SafeState(Claimed(b, c, require))
  {
    hide CustomerOk, ResourceOk, Completes;
    var g := Claimed(b, c, require);
    assert g.allocation == b.allocation;
    var others := OthersCanFinish(b, n, m, c);
    SameOrder(b.need, g.need, b.allocation, b.available, others);
    EverythingComesBack(b, n, m, c, others);
    FinishLast(g.need, b.allocation, b.available, others, c);
    LastInOrder(b.status, c, others);
  }

  lemma LastInOrder(status: seq<int>, c: nat, others: seq<nat>)
    requires c < |status|
    requires forall i, j :: 0 <= i < j < |others| ==> others[i] != others[j]
    requires forall k: nat :: k in others <==> k < |status| && k != c && status[k] != 1
    ensures IsOrder(DoneOf(status[c := 0]), others + [c])
  {
    var order := others + [c];
    assert c !in others;
    forall i, j | 0 <= i < j < |order|
      ensures order[i] != order[j]
    {
      assert order[i] == others[i] && others[i] in others;
    }
    forall k: nat
      ensures k in order <==> k < |status| && !DoneOf(status[c := 0])[k]
    {
      assert k in order <==> k in others || k == c;
    }
  }

  // The others have an order of their own.
  lemma OthersCanFinish(b: Bank, n: nat, m: nat, c: nat) returns (others: seq<nat>)
    requires BankOk(b, n, m) && c < n && b.allocation[c] == Nothing(m)
    ensures Completes(b.need, b.allocation, b.available, others)
    ensures forall i, j :: 0 <= i < j < |others| ==> others[i] != others[j]
    ensures forall k: nat :: k in others <==> k < n && k != c && b.status[k] != 1
  {
    hide CustomerOk, ResourceOk, Completes;
    var order :| IsOrder(DoneOf(b.status), order) && Completes(b.need, b.allocation, b.available, order);
    others := order;
    if c in order {
      var i :| 0 <= i < |order| && order[i] == c;
      assert Plus(b.available, b.allocation[c]) == b.available;
      FinishEarly(b.need, b.allocation, b.available, order, i);
      OrderWithout(DoneOf(b.status), order, i);
      others := Without(order, i);
    }
  }

  lemma EverythingComesBack(b: Bank, n: nat, m: nat, c: nat, others: seq<nat>)
    requires BankOk(b, n, m) && c < n && b.allocation[c] == Nothing(m)
    requires forall i, j :: 0 <= i < j < |others| ==> others[i] != others[j]
    requires forall k: nat :: k in others <==> k < n && k != c && b.status[k] != 1
    ensures After(b.allocation, b.available, others) == b.all
  {
    hide IsSafe;
    forall r | 0 <= r < m
      ensures After(b.allocation, b.available, others)[r] == b.all[r]
    {
      assert ResourceOk(b, r);
      forall k | 0 <= k < n && k !in others
        ensures b.allocation[k][r] == 0
      {
        assert CustomerOk(b, k);
      }
      AfterIsTotal(b.allocation, b.available, others, r);
    }
  }

  lemma ClaimKeepsBank(b: Bank, n: nat, m: nat, c: nat, require: Row)
    requires BankOk(b, n, m) && c < n && Fits(require, b.all) && IsGain(require) && b.allocation[c] == Nothing(m)
    ensures BankOk(Claimed(b, c, require), n, m)
  {
    hide IsSafe;
    ClaimIsSafe(b, n, m, c, require);
    var g := Claimed(b, c, require);
    assert g.allocation == b.allocation;
    forall k | 0 <= k < n
      ensures CustomerOk(g, k)
    {
      assert CustomerOk(b, k);
      if k == c {
        forall r | 0 <= r < m
          ensures require[r] < LIMIT
        {
          assert ResourceOk(b, r);
        }
      }
    }
    forall r | 0 <= r < m
      ensures ResourceOk(g, r)
    {
      assert ResourceOk(b, r);
    }
  }

  // ----- runs

  datatype Act = Claim(c: nat, require: Row) | Request(c: nat, d: nat, r: u32)

  // A claim is made while holding nothing and asks for no more than there is; a request is made by a
  // customer that has claimed, within its claim and within what is available.
  ghost predicate Allowed(b: Bank, n: nat, m: nat, a: Act)
    requires Sized(b, n, m)
  {
    match a
    case Claim(c, require) => c < n && Fits(require, b.all) && IsGain(require) && b.allocation[c] == Nothing(m)
    case Request(c, d, r) => c < n && d < m && b.status[c] != 1 && InRange(b, c, d, r)
  }

  // What an act does: a request that would make the state unsafe changes nothing.
  ghost function Done(b: Bank, n: nat, m: nat, a: Act): Bank
    requires Sized(b, n, m) && Allowed(b, n, m, a)
  {
    match a
    case Claim(c, require) => Claimed(b, c, require)
    case Request(c, d, r) => if SafeState(Considered(b, c, d, r)) then Granted(b, c, d, r) else b
  }

  // Bank t is reached from b by the acts, each of them allowed when it is made.
  ghost predicate Reaches(b: Bank, n: nat, m: nat, acts: seq<Act>, t: Bank)
    decreases |acts|
  {
    if acts == [] then t == b
    else Sized(b, n, m) && Allowed(b, n, m, acts[0]) && Reaches(Done(b, n, m, acts[0]), n, m, acts[1..], t)
  }

  // Over every run the units of every resource are conserved, every customer's need and allocation
  // add up to its claim, and the state stays safe: while anyone is unfinished, someone can finish.
  lemma {:induction false} RunKeepsBank(b: Bank, n: nat, m: nat, acts: seq<Act>, t: Bank)
    requires BankOk(b, n, m) && Reaches(b, n, m, acts, t)
    ensures BankOk(t, n, m) && t.all == b.all
    decreases |acts|
  {
    hide CustomerOk, ResourceOk, IsSafe;
    if acts != [] {
      match acts[0] {
        case Claim(c, require) => ClaimKeepsBank(b, n, m, c, require);
        case Request(c, d, r) =>
          if SafeState(Considered(b, c, d, r)) {
            GrantKeepsBank(b, n, m, c, d, r);
          }
      }
      RunKeepsBank(Done(b, n, m, acts[0]), n, m, acts[1..], t);
    }
  }

  lemma SomeCustomerCanFinish(b: Bank, n: nat, m: nat, acts: seq<Act>, t: Bank, c: nat) returns (d: nat)
    requires BankOk(b, n, m) && Reaches(b, n, m, acts, t) && c < n && |t.status| == n && t.status[c] != 1
    ensures d < n == |t.need| && |t.status| == n && t.status[d] != 1 && Fits(t.need[d], t.available)
  {
    hide CustomerOk, ResourceOk, IsSafe, Reaches;
    RunKeepsBank(b, n, m, acts, t);
    d := SomeoneCanFinish(t.need, t.allocation, t.available, DoneOf(t.status), c);
  }
}
