/** The visiting order of the fail-fast traversals of CircleNode.java, and
    where a traversal stops when its visitor changes the list. */
module Traversal {
  import opened JavaInt

  /** The position a walk of n nodes from head reaches at its step i: clockwise
      it goes 0, 1, ..., n - 1, 0, ...; counter-clockwise 0, n - 1, ..., 1, 0, ... */
  function Pos(i: nat, n: int, clockwise: bool): (p: int)
    requires n >= 1
    ensures 0 <= p < n
  {
    if clockwise then i % n else (n - i % n) % n
  }

  /** The elements a walk of `count` steps from head meets, step by step. */
  function Order<T>(s: seq<T>, count: nat, clockwise: bool): (r: seq<T>)
    requires s != [] || count == 0
    ensures |r| == count
  {
    seq(count, i requires 0 <= i < count => s[Pos(i, |s|, clockwise)])
  }

  /** One step of a walk moves to the following position clockwise, or the
      preceding one counter-clockwise, wrapping around at the ends. */
  lemma PosStep(i: nat, n: int, clockwise: bool)
    requires n >= 1
    ensures clockwise ==>
      Pos(i + 1, n, clockwise) == (if Pos(i, n, clockwise) + 1 < n then Pos(i, n, clockwise) + 1 else 0)
    ensures !clockwise ==>
      Pos(i + 1, n, clockwise) == (if Pos(i, n, clockwise) == 0 then n - 1 else Pos(i, n, clockwise) - 1)
  {
    DivStep(i, n);
    if !clockwise {
      BackStep(i % n, (i + 1) % n, n);
    }
  }

  /** Counter-clockwise, remainder r becomes position (n - r) % n. */
  lemma BackStep(r: int, r1: int, n: int)
    requires 0 <= r < n && (r == n - 1 ==> r1 == 0) && (r != n - 1 ==> r1 == r + 1)
    ensures (n - r1) % n == (if (n - r) % n == 0 then n - 1 else (n - r) % n - 1)
  {
    if r == 0 {
      ModShift(0, n);
      if n > 1 {
        ModSmall(n - 1, n);
      }
    } else {
      ModSmall(n - r, n);
      if r1 == 0 {
        ModShift(0, n);
      } else {
        ModSmall(n - r1, n);
      }
    }
  }

  /** One full clockwise round delivers the elements in order. */
  lemma OrderClockwiseRound<T>(s: seq<T>)
    ensures Order(s, |s|, true) == s
  {
    forall i | 0 <= i < |s|
      ensures Order(s, |s|, true)[i] == s[i]
    {
      ModSmall(i, |s|);
    }
  }

  /** One full counter-clockwise round delivers head, then the others from the
      last back to the second. */
  lemma OrderCounterClockwiseRound<T>(s: seq<T>)
    requires s != []
    ensures Order(s, |s|, false)[0] == s[0]
    ensures forall i :: 1 <= i < |s| ==> Order(s, |s|, false)[i] == s[|s| - i]
  {
    var n := |s|;
    ModSmall(0, n);
    forall i | 1 <= i < n
      ensures Order(s, n, false)[i] == s[n - i]
    {
      ModSmall(i, n);
      ModSmall(n - i, n);
    }
  }

  /** A walk longer than one round repeats it: step i + n meets what step i met. */
  lemma OrderRepeats<T>(s: seq<T>, count: nat, clockwise: bool, i: nat)
    requires s != [] && i + |s| < count
    ensures Order(s, count, clockwise)[i + |s|] == Order(s, count, clockwise)[i]
  {
    ModShift(i, |s|);
  }

  /** What a traversal over `order` delivers from step `from` on: each element
      goes to the visitor, and the walk ends right after the first visit whose
      call `mutates` the list (the fail-fast check then raises). The flag says
      whether it raised. */
  function Delivered<T>(order: seq<T>, mutates: (nat, T) -> bool, from: nat): (seq<T>, bool)
    decreases |order| - from
  {
    if from >= |order| then ([], false)
    else if mutates(from, order[from]) then ([order[from]], true)
    else
      var rest := Delivered(order, mutates, from + 1);
      ([order[from]] + rest.0, rest.1)
  }

  /** What the whole traversal delivers once `visited` has been delivered and
      the walk goes on from step `from`. */
  function After<T>(visited: seq<T>, order: seq<T>, mutates: (nat, T) -> bool, from: nat): (seq<T>, bool)
  {
    var rest := Delivered(order, mutates, from);
    (visited + rest.0, rest.1)
  }

  /** The traversal one step at a time: at the end nothing is left to deliver;
      before it, visit `from` delivers its element and either raises or goes on. */
  lemma DeliveredFrom<T>(order: seq<T>, mutates: (nat, T) -> bool, from: nat, visited: seq<T>)
    ensures from >= |order| ==> After(visited, order, mutates, from) == (visited, false)
    ensures from < |order| && mutates(from, order[from]) ==>
      After(visited, order, mutates, from) == (visited + [order[from]], true)
    ensures from < |order| && !mutates(from, order[from]) ==>
      After(visited, order, mutates, from) == After(visited + [order[from]], order, mutates, from + 1)
    ensures from == 0 ==> After([], order, mutates, 0) == Delivered(order, mutates, 0)
  {
    if from < |order| && !mutates(from, order[from]) {
      var rest := Delivered(order, mutates, from + 1);
      assert visited + ([order[from]] + rest.0) == (visited + [order[from]]) + rest.0;
    }
    assert visited + [] == visited;
    assert [] + Delivered(order, mutates, 0).0 == Delivered(order, mutates, 0).0;
  }

  /** A visitor that never changes the list is given every element, in order,
      and the traversal does not raise. */
  lemma {:induction false} DeliveredAll<T>(order: seq<T>, mutates: (nat, T) -> bool, from: nat)
    requires from <= |order|
    requires forall i :: from <= i < |order| ==> !mutates(i, order[i])
    ensures Delivered(order, mutates, from) == (order[from..], false)
    decreases |order| - from
  {
    if from < |order| {
      DeliveredAll(order, mutates, from + 1);
      assert order[from..] == [order[from]] + order[from + 1..];
    }
  }

  /** When the visit at step m is the first that changes the list, the elements
      up to and including step m are delivered and the traversal raises. */
  lemma {:induction false} DeliveredUntil<T>(order: seq<T>, mutates: (nat, T) -> bool, from: nat, m: nat)
    requires from <= m < |order| && mutates(m, order[m])
    requires forall i :: from <= i < m ==> !mutates(i, order[i])
    ensures Delivered(order, mutates, from) == (order[from..m + 1], true)
    decreases m - from
  {
    if from < m {
      DeliveredUntil(order, mutates, from + 1, m);
      assert order[from..m + 1] == [order[from]] + order[from + 1..m + 1];
    } else {
      assert order[from..m + 1] == [order[from]];
    }
  }

  /** The delivered elements always run from step `from` along the order; the
      traversal raises exactly when some visit changes the list. */
  lemma {:induction false} DeliveredPrefix<T>(order: seq<T>, mutates: (nat, T) -> bool, from: nat)
    requires from <= |order|
    ensures var d := Delivered(order, mutates, from);
      from + |d.0| <= |order| && d.0 == order[from..from + |d.0|]
    ensures Delivered(order, mutates, from).1 <==> exists i :: from <= i < |order| && mutates(i, order[i])
    decreases |order| - from
  {
    if from < |order| && !mutates(from, order[from]) {
      DeliveredPrefix(order, mutates, from + 1);
    }
  }
}
