// The banker's notion of safety: an order in which all unfinished customers can complete, and why
// looking for one greedily is enough.
module Safety {

  // An amount of every resource.
  type Row = seq<int>

  predicate Fits(a: Row, b: Row) {
    |a| == |b| && forall n :: 0 <= n < |a| ==> a[n] <= b[n]
  }

  function Plus(a: Row, b: Row): (r: Row) {
    seq(|a|, n requires 0 <= n < |a| => if n < |b| then a[n] + b[n] else a[n])
  }

  predicate IsGain(a: Row) {
    forall n :: 0 <= n < |a| ==> a[n] >= 0
  }

  // The customers in order can finish one after the other, each giving back what it holds.
  ghost predicate Completes(need: seq<Row>, held: seq<Row>, free: Row, order: seq<nat>)
    requires |need| == |held|
    decreases |order|
  {
    order == [] ||
    (order[0] < |need| && Fits(need[order[0]], free) && Completes(need, held, Plus(free, held[order[0]]), order[1..]))
  }

  // All unfinished customers, each once.
  ghost predicate IsOrder(done: seq<bool>, order: seq<nat>) {
    && (forall i, j :: 0 <= i < j < |order| ==> order[i] != order[j])
    && (forall c: nat :: c in order <==> c < |done| && !done[c])
  }

  // Some order completes all unfinished customers.
  ghost predicate IsSafe(need: seq<Row>, held: seq<Row>, free: Row, done: seq<bool>)
    requires |need| == |held|
  {
    exists order :: IsOrder(done, order) && Completes(need, held, free, order)
  }

  lemma PlusCommutes(a: Row, b: Row, c: Row)
    ensures Plus(Plus(a, b), c) == Plus(Plus(a, c), b)
  {
  }

  lemma {:induction false} MoreIsEnough(need: seq<Row>, held: seq<Row>, free: Row, more: Row, order: seq<nat>)
    requires |need| == |held| && Fits(free, more) && Completes(need, held, free, order)
    ensures Completes(need, held, more, order)
    decreases |order|
  {
    if order != [] {
      var h := held[order[0]];
      assert Fits(Plus(free, h), Plus(more, h));
      MoreIsEnough(need, held, Plus(free, h), Plus(more, h), order[1..]);
    }
  }

  function Without(order: seq<nat>, i: nat): seq<nat>
    requires i < |order|
  {
    order[..i] + order[i + 1..]
  }

  // The exchange: a customer may finish before its turn, and the others complete all the same.
  lemma {:induction false} FinishEarly(need: seq<Row>, held: seq<Row>, free: Row, order: seq<nat>, i: nat)
    requires |need| == |held| && i < |order| && order[i] < |held| && IsGain(held[order[i]])
    requires Completes(need, held, free, order)
    ensures Completes(need, held, Plus(free, held[order[i]]), Without(order, i))
    decreases i
  {
    var h := held[order[i]];
    if i == 0 {
      assert Without(order, 0) == order[1..];
    } else {
      var o := held[order[0]];
      FinishEarly(need, held, Plus(free, o), order[1..], i - 1);
      PlusCommutes(free, o, h);
      assert Fits(free, Plus(free, h));
      assert Without(order, i)[0] == order[0] && Without(order, i)[1..] == Without(order[1..], i - 1);
    }
  }

  // Letting any customer finish whose needs can be met neither gains nor loses safety.
  lemma FinishAny(need: seq<Row>, held: seq<Row>, free: Row, done: seq<bool>, c: nat)
    requires |need| == |held| == |done| && c < |done| && !done[c] && Fits(need[c], free) && IsGain(held[c])
    ensures IsSafe(need, held, free, done) <==> IsSafe(need, held, Plus(free, held[c]), done[c := true])
  {
    if IsSafe(need, held, free, done) {
      var order :| IsOrder(done, order) && Completes(need, held, free, order);
      assert c in order;
      var i :| 0 <= i < |order| && order[i] == c;
      FinishEarly(need, held, free, order, i);
      OrderWithout(done, order, i);
    }
    if IsSafe(need, held, Plus(free, held[c]), done[c := true]) {
      var rest :| IsOrder(done[c := true], rest) && Completes(need, held, Plus(free, held[c]), rest);
      var order := [c] + rest;
      assert order[1..] == rest;
      assert IsOrder(done, order) by {
        assert c !in rest;
      }
    }
  }

  lemma OrderWithout(done: seq<bool>, order: seq<nat>, i: nat)
    requires IsOrder(done, order) && i < |order| && order[i] < |done|
    ensures IsOrder(done[order[i] := true], Without(order, i))
  {
    var c, w := order[i], Without(order, i);
    forall d: nat
      ensures d in w <==> d < |done| && !done[c := true][d]
    {
      if d in order && d != c {
        var k :| 0 <= k < |order| && order[k] == d;
        assert w[if k < i then k else k - 1] == d;
      }
    }
  }

  lemma AllDoneIsSafe(need: seq<Row>, held: seq<Row>, free: Row, done: seq<bool>)
    requires |need| == |held| && forall d :: 0 <= d < |done| ==> done[d]
    ensures IsSafe(need, held, free, done)
  {
    assert IsOrder(done, []) && Completes(need, held, free, []);
  }

  // In a safe state some unfinished customer can finish at once.
  lemma SomeoneCanFinish(need: seq<Row>, held: seq<Row>, free: Row, done: seq<bool>, c: nat) returns (d: nat)
    requires |need| == |held| == |done| && c < |done| && !done[c] && IsSafe(need, held, free, done)
    ensures d < |done| && !done[d] && Fits(need[d], free)
  {
    var order :| IsOrder(done, order) && Completes(need, held, free, order);
    assert c in order;
    d := order[0];
    assert d in order;
  }

  // When nobody's needs can be met and somebody is unfinished, there is no order.
  lemma StuckIsUnsafe(need: seq<Row>, held: seq<Row>, free: Row, done: seq<bool>, c: nat)
    requires |need| == |held| == |done| && c < |done| && !done[c]
    requires forall d :: 0 <= d < |done| && !done[d] ==> !Fits(need[d], free)
    ensures !IsSafe(need, held, free, done)
  {
    if IsSafe(need, held, free, done) {
      var d := SomeoneCanFinish(need, held, free, done, c);
    }
  }
}
