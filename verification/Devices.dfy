// rt_require_device and rt_claim_device: requests and claims on the kernel's tables.
module Devices {
  import opened Words
  import opened Safety
  import opened Banker

  const NO_ASID := -1

  class Tables {
    const customers: nat
    const resources: nat
    const registered: array<bool>    // by device: the driver has an allocation callback
    const all: array<int>
    const available: array<int>
    const maximum: array<Row>
    const allocation: array<Row>
    const need: array<Row>
    const status: array<int>
    const asids: array<int>          // address space of each customer, NO_ASID when free

    // Tables before any claim: everything is available.
    constructor (n: nat, devices: seq<nat>)
      requires forall r :: 0 <= r < |devices| ==> devices[r] < LIMIT
      ensures Valid() && customers == n && resources == |devices|
      ensures Now() == Bank(devices, devices, Rows(n, |devices|), Rows(n, |devices|), Rows(n, |devices|), Nothing(n))
      ensures fresh(asids) && forall c :: 0 <= c < n ==> asids[c] == NO_ASID
    {
      var m := |devices|;
      customers, resources := n, m;
      registered := new bool[m](_ => false);
      all := new int[m](r requires 0 <= r < |devices| => devices[r]);
      available := new int[m](r requires 0 <= r < |devices| => devices[r]);
      maximum := new Row[n](_ => Nothing(m));
      allocation := new Row[n](_ => Nothing(m));
      need := new Row[n](_ => Nothing(m));
      status := new int[n](_ => 0);
      asids := new int[n](_ => NO_ASID);
      new;
      assert all[..] == devices && available[..] == devices && status[..] == Nothing(n);
      assert maximum[..] == Rows(n, m) && allocation[..] == Rows(n, m) && need[..] == Rows(n, m);
      NothingClaimed(Now(), n, m);
    }

    ghost function Now(): Bank
      reads all, available, maximum, allocation, need, status
    {
      Bank(all[..], available[..], maximum[..], allocation[..], need[..], status[..])
    }

    ghost predicate Sizes()
      reads all, available, maximum, allocation, need, status
    {
      && Sized(Now(), customers, resources)
      && registered.Length == resources && asids.Length == customers
      && all != available && all != status && all != asids && available != status && available != asids && status != asids
      && maximum != allocation && maximum != need && allocation != need
    }

    ghost predicate Valid()
      reads all, available, maximum, allocation, need, status
    {
      Sizes() && BankOk(Now(), customers, resources)
    }
  }

  function Rows(n: nat, m: nat): (rows: seq<Row>)
    ensures RowsOf(rows, n, m) && forall c :: 0 <= c < n ==> rows[c] == Nothing(m)
  {
    seq(n, _ => Nothing(m))
  }

  lemma NothingClaimed(b: Bank, n: nat, m: nat)
    requires Sized(b, n, m) && b.available == b.all && forall r :: 0 <= r < m ==> 0 <= b.all[r] < LIMIT
    requires b.maximum == b.allocation == b.need == Rows(n, m) && b.status == Nothing(n)
    ensures BankOk(b, n, m)
  {
    forall r | 0 <= r < m
      ensures ResourceOk(b, r)
    {
      NothingHeld(b.allocation, r);
    }
    AnyOrderWorks(n, m, b.available, 0);
    var order := seq(n, c requires 0 <= c < n => c);
    assert IsOrder(DoneOf(b.status), order) by {
      forall k: nat
        ensures k in order <==> k < n
      {
        assert k < n ==> order[k] == k;
      }
    }
    assert order[0..] == order;
    assert Completes(b.need, b.allocation, b.available, order);
  }

  lemma {:induction false} AnyOrderWorks(n: nat, m: nat, free: Row, k: nat)
    requires |free| == m && k <= n && forall r :: 0 <= r < m ==> free[r] >= 0
    ensures Completes(Rows(n, m), Rows(n, m), free, seq(n, c requires 0 <= c < n => c)[k..])
    decreases n - k
  {
    if k < n {
      AnyOrderWorks(n, m, free, k + 1);
      assert Plus(free, Nothing(m)) == free;
    }
  }

  // The place of an address space among the customers: the one it has, or else the first free one.
  predicate IsPlace(before: seq<int>, after: seq<int>, asid: nat, c: int) {
    if c == -1 then asid !in before && NO_ASID !in before && after == before
    else
      && 0 <= c < |before| && after == before[c := asid]
      && before[c] == (if asid in before then asid else NO_ASID)
      && forall i :: 0 <= i < c ==> before[i] != before[c]
  }

  // getAsidIndex: the customer of an address space, which becomes one if there is room; -1 if not.
  method GetAsidIndex(dv: Tables, asid: nat) returns (index: int)
    modifies dv.asids
    ensures IsPlace(old(dv.asids[..]), dv.asids[..], asid, index)
  {
    var i := 0;
    while i < dv.asids.Length
      invariant 0 <= i <= dv.asids.Length && asid !in dv.asids[..i] && dv.asids[..] == old(dv.asids[..])
    {
      if dv.asids[i] == asid {
        return i;
      }
      i := i + 1;
    }
    i := 0;
    while i < dv.asids.Length
      invariant 0 <= i <= dv.asids.Length && NO_ASID !in dv.asids[..i] && dv.asids[..] == old(dv.asids[..])
    {
      if dv.asids[i] == NO_ASID {
        dv.asids[i] := asid;
        return i;
      }
      i := i + 1;
    }
    return -1;
  }

  // ----- the safety scan

  // Whether the needs of a customer can be met.
  method NeedsMet(need: Row, free: array<int>) returns (mark: bool)
    requires |need| == free.Length
    ensures mark == Fits(need, free[..])
  {
    var n := 0;
    while n < |need|
      invariant 0 <= n <= |need| && forall k :: 0 <= k < n ==> need[k] <= free[k]
    {
      if need[n] > free[n] {
        return false;
      }
      n := n + 1;
    }
    return true;
  }

  function Unfinished(status: seq<int>): nat {
    if status == [] then 0 else (if status[0] == 1 then 0 else 1) + Unfinished(status[1..])
  }

  lemma {:induction false} FinishedOne(status: seq<int>, c: nat)
    requires c < |status| && status[c] != 1
    ensures Unfinished(status[c := 1]) == Unfinished(status) - 1
  {
    if c == 0 {
      assert status[c := 1][1..] == status[1..];
    } else {
      assert status[c := 1][1..] == status[1..][c - 1 := 1];
      FinishedOne(status[1..], c - 1);
    }
  }

  // The first unfinished customer whose needs can be met; count is the number of finished ones
  // before it.
  method FindReady(need: array<Row>, free: array<int>, status: array<int>) returns (found: bool, count: nat, ptr: nat)
    requires need.Length == status.Length && forall c :: 0 <= c < need.Length ==> |need[c]| == free.Length
    ensures found ==> ptr < status.Length && status[ptr] != 1 && Fits(need[ptr], free[..]) && count < status.Length
    ensures !found ==> forall c :: 0 <= c < status.Length && status[c] != 1 ==> !Fits(need[c], free[..])
    ensures !found ==> (count >= status.Length <==> forall c :: 0 <= c < status.Length ==> status[c] == 1)
  {
    found, count, ptr := false, 0, 0;
    while ptr < status.Length
      invariant 0 <= count <= ptr <= status.Length
      invariant forall c :: 0 <= c < ptr && status[c] != 1 ==> !Fits(need[c], free[..])
      invariant count == ptr <==> forall c :: 0 <= c < ptr ==> status[c] == 1
    {
      if status[ptr] != 1 {
        var mark := NeedsMet(need[ptr], free);
        if mark {
          found := true;
          return;
        }
      } else {
        count := count + 1;
      }
      ptr := ptr + 1;
    }
  }

  // The scan of rt_require_device, on its own copies of the tables.
  method Scan(need: array<Row>, held: array<Row>, free: array<int>, status: array<int>) returns (safe: bool)
    requires need.Length == held.Length == status.Length && free != status
    requires forall c :: 0 <= c < need.Length ==> |need[c]| == |held[c]| == free.Length && IsGain(held[c])
    modifies free, status
    ensures safe == IsSafe(need[..], held[..], old(free[..]), DoneOf(old(status[..])))
  {
    ghost var wanted := IsSafe(need[..], held[..], free[..], DoneOf(status[..]));
    while true
      invariant wanted == IsSafe(need[..], held[..], free[..], DoneOf(status[..]))
      decreases Unfinished(status[..])
    {
      var found, count, ptr := FindReady(need, free, status);
      if count >= status.Length {
        AllDoneIsSafe(need[..], held[..], free[..], DoneOf(status[..]));
        return true;
      }
      if !found {
        ghost var c :| 0 <= c < status.Length && status[c] != 1;
        StuckIsUnsafe(need[..], held[..], free[..], DoneOf(status[..]), c);
        return false;
      }
      ghost var f, s := free[..], status[..];
      FinishAny(need[..], held[..], f, DoneOf(s), ptr);
      var n := 0;
      while n < free.Length
        invariant 0 <= n <= free.Length && status[..] == s
        invariant forall k :: 0 <= k < free.Length ==> free[k] == if k < n then f[k] + held[ptr][k] else f[k]
      {
        free[n] := free[n] + held[ptr][n];
        n := n + 1;
      }
      status[ptr] := 1;
      assert free[..] == Plus(f, held[ptr]);
      assert DoneOf(status[..]) == DoneOf(s)[ptr := true];
      FinishedOne(s, ptr);
      assert status[..] == s[ptr := 1];
    }
  }

  // ----- requests and claims

  lemma ConsideredIsSized(b: Bank, n: nat, m: nat, c: nat, d: nat, r: u32)
    requires BankOk(b, n, m) && c < n && d < m
    ensures Sized(Considered(b, c, d, r), n, m) && Considered(b, c, d, r).status == b.status
    ensures forall k :: 0 <= k < n ==> IsGain(Considered(b, c, d, r).allocation[k])
  {
    hide IsSafe;
    forall k | 0 <= k < n
      ensures IsGain(Considered(b, c, d, r).allocation[k])
    {
      assert CustomerOk(b, k);
    }
  }

  // The copies that the check works on.
  method CopyOf<T(0)>(a: array<T>) returns (b: array<T>)
    ensures fresh(b) && b[..] == a[..]
  {
    b := new T[a.Length];
    var i := 0;
    while i < a.Length
      invariant 0 <= i <= a.Length && forall k :: 0 <= k < i ==> b[k] == a[k]
    {
      b[i] := a[i];
      i := i + 1;
    }
  }

  // The safety check of a request, on copies of the tables to which the request has been applied if
  // it is in range.
  method Check(dv: Tables, c: nat, d: nat, r: u32) returns (safe: bool)
    requires dv.Valid() && c < dv.customers && d < dv.resources
    ensures safe == SafeState(Considered(dv.Now(), c, d, r))
  {
    hide IsSafe, CustomerOk, ResourceOk, Considered;
    ghost var b := dv.Now();
    ConsideredIsSized(b, dv.customers, dv.resources, c, d, r);
    var status := CopyOf(dv.status);
    var free := CopyOf(dv.available);
    var need := CopyOf(dv.need);
    var held := CopyOf(dv.allocation);
    Consider(need, held, free, b, c, d, r);
    ghost var g := Considered(b, c, d, r);
    forall k | 0 <= k < dv.customers
      ensures |need[k]| == |held[k]| == free.Length && IsGain(held[k])
    {
      assert need[k] == g.need[k] && held[k] == g.allocation[k];
    }
    assert status[..] == g.status;
    safe := Scan(need, held, free, status);
  }

  // Grants a request that is in range on the copies.
  method Consider(need: array<Row>, held: array<Row>, free: array<int>, ghost b: Bank, c: nat, d: nat, r: u32)
    requires need[..] == b.need && held[..] == b.allocation && free[..] == b.available && need != held
    requires c < |b.need| == |b.allocation| && d < |b.need[c]| == |b.allocation[c]| && d < |b.available|
    modifies need, held, free
    ensures var g := Considered(b, c, d, r); need[..] == g.need && held[..] == g.allocation && free[..] == g.available
  {
    if r <= need[c][d] && r <= free[d] {
      free[d] := free[d] - r;
      held[c] := held[c][d := held[c][d] + r];
      need[c] := need[c][d := need[c][d] - r];
    }
  }

  // rt_require_device: granted exactly when the state that is considered is safe; a denial changes
  // no table.
  method RequireDevice(dv: Tables, asid: nat, d: nat, r: u32) returns (granted: bool, ghost c: int)
    requires dv.Valid() && d < dv.resources
    modifies dv.asids, dv.available, dv.allocation, dv.need
    ensures dv.Sizes()
    ensures !dv.registered[d] ==> !granted && dv.asids[..] == old(dv.asids[..])
    ensures dv.registered[d] ==> IsPlace(old(dv.asids[..]), dv.asids[..], asid, c)
    ensures granted ==> dv.registered[d] && c >= 0 && dv.Now() == Granted(old(dv.Now()), c, d, r)
    ensures !granted ==> dv.Now() == old(dv.Now())
    ensures dv.registered[d] && c >= 0 ==> granted == SafeState(Considered(old(dv.Now()), c, d, r))
    ensures granted && InRange(old(dv.Now()), c, d, r) && dv.status[c] != 1 ==> dv.Valid()
    ensures granted && !InRange(old(dv.Now()), c, d, r) ==> (dv.Valid() <==> IsGiveBack(old(dv.Now()), c, d, r))
    ensures !granted ==> dv.Valid()
  {
    hide IsSafe, CustomerOk, ResourceOk;
    ghost var b := dv.Now();
    c := -1;
    if !dv.registered[d] {
      return false, c;
    }
    var customer := GetAsidIndex(dv, asid);
    c := customer;
    if customer == -1 {
      return false, c;
    }
    granted := Check(dv, customer, d, r);
    if granted {
      dv.need[customer] := dv.need[customer][d := Int32(dv.need[customer][d] - r)];
      dv.allocation[customer] := dv.allocation[customer][d := Int32(dv.allocation[customer][d] + r)];
      dv.available[d] := Int32(dv.available[d] - r);
      assert dv.Now() == Granted(b, customer, d, r);
      if InRange(b, customer, d, r) && dv.status[customer] != 1 {
        GrantKeepsBank(b, dv.customers, dv.resources, customer, d, r);
      } else if !InRange(b, customer, d, r) {
        OutOfRangeIsGranted(b, dv.customers, dv.resources, customer, d, r);
      }
    }
  }

  function Ints(require: seq<u32>): (row: Row)
    ensures |row| == |require|
  {
    seq(|require|, n requires 0 <= n < |require| => Int32(require[n]))
  }

  // rt_claim_device, for an address space that is a customer or can become one.
  method ClaimDevice(dv: Tables, asid: nat, require: array<u32>) returns (ghost c: int)
    requires dv.Valid() && require.Length == dv.resources
    requires asid in dv.asids[..] || NO_ASID in dv.asids[..]
    modifies dv.asids, dv.allocation, dv.need, dv.maximum, dv.status
    ensures dv.Sizes() && 0 <= c < dv.customers && IsPlace(old(dv.asids[..]), dv.asids[..], asid, c)
    ensures dv.Now() == Claimed(old(dv.Now()), c, Ints(require[..]))
    ensures old(dv.allocation[c]) == Nothing(dv.resources) && Fits(require[..], dv.all[..]) ==> dv.Valid()
  {
    hide IsSafe, CustomerOk, ResourceOk, Claimed;
    ghost var b := dv.Now();
    var index := GetAsidIndex(dv, asid);
    c := index;
    FillRows(dv, index, require);
    dv.status[index] := 0;
    ClaimedIs(b, dv.Now(), c, Ints(require[..]));
    if b.allocation[c] == Nothing(dv.resources) && Fits(require[..], dv.all[..]) {
      SmallClaim(b, dv.customers, dv.resources, require[..]);
      ClaimKeepsBank(b, dv.customers, dv.resources, c, Ints(require[..]));
    }
  }

  // The loop of rt_claim_device.
  method FillRows(dv: Tables, index: nat, require: array<u32>)
    requires dv.Sizes() && index < dv.customers && require.Length == dv.resources
    modifies dv.allocation, dv.need, dv.maximum
    ensures dv.Sizes() && dv.Now() == old(dv.Now()).(need := dv.need[..], maximum := dv.maximum[..], allocation := dv.allocation[..])
    ensures dv.need[..] == old(dv.need[..])[index := Ints(require[..])]
    ensures dv.maximum[..] == old(dv.maximum[..])[index := Ints(require[..])]
    ensures dv.allocation[..] == old(dv.allocation[..])[index := Nothing(dv.resources)]
  {
    ghost var b := dv.Now();
    var i := 0;
    while i < dv.resources
      invariant 0 <= i <= dv.resources
      invariant Filled(b.need, dv.need[..], index, Ints(require[..]), i)
      invariant Filled(b.maximum, dv.maximum[..], index, Ints(require[..]), i)
      invariant Filled(b.allocation, dv.allocation[..], index, Nothing(dv.resources), i)
    {
      dv.need[index] := dv.need[index][i := Int32(require[i])];
      dv.maximum[index] := dv.maximum[index][i := Int32(require[i])];
      dv.allocation[index] := dv.allocation[index][i := 0];
      i := i + 1;
    }
    FilledAll(b.need, dv.need[..], index, Ints(require[..]));
    FilledAll(b.maximum, dv.maximum[..], index, Ints(require[..]));
    FilledAll(b.allocation, dv.allocation[..], index, Nothing(dv.resources));
  }

  lemma ClaimedIs(b: Bank, t: Bank, c: nat, require: Row)
    requires c < |b.need| == |b.allocation| == |b.maximum| == |b.status|
    requires t == b.(need := b.need[c := require], maximum := b.maximum[c := require],
                     allocation := b.allocation[c := Nothing(|require|)], status := b.status[c := 0])
    ensures t == Claimed(b, c, require)
  {
  }

  lemma SmallClaim(b: Bank, n: nat, m: nat, require: seq<u32>)
    requires BankOk(b, n, m) && Fits(require, b.all)
    ensures Ints(require) == require && IsGain(Ints(require))
  {
    hide IsSafe;
    forall r | 0 <= r < m
      ensures Int32(require[r]) == require[r]
    {
      assert ResourceOk(b, r);
    }
  }

  // Row c has been replaced by row up to entry i.
  predicate Filled(before: seq<Row>, now: seq<Row>, c: int, row: Row, i: nat) {
    && 0 <= c < |before| == |now| && i <= |row| == |before[c]| == |now[c]|
    && (forall k :: 0 <= k < |before| && k != c ==> now[k] == before[k])
    && (forall k :: 0 <= k < |row| ==> now[c][k] == if k < i then row[k] else before[c][k])
  }

  lemma FilledAll(before: seq<Row>, now: seq<Row>, c: int, row: Row)
    requires Filled(before, now, c, row, |row|)
    ensures now == before[c := row]
  {
    assert now[c] == row;
  }
}
