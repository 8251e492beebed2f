/** Client runs of CircleNode: the unit test's lookups around a removal, the
    lookup of an odd interval as written and as corrected, the corrected
    removeLast followed by an append, and the no-op operations on the empty
    list. */
module Scenarios {
  import opened Traversal
  import opened CircleNodes

  /** A list with the given interval holding the values in order, its index
      as the appends leave it. */
  method Build<T>(interval: int, values: seq<T>) returns (list: CircleNode<T>)
    requires interval >= 1
    ensures fresh(list) && fresh(list.index) && forall j :: 0 <= j < |list.Nodes| ==> fresh(list.Nodes[j])
    ensures list.Valid() && list.IndexSound() && list.interval == interval && list.Contents() == values
  {
    list := new CircleNode<T>.WithInterval(interval);
    list.AddAll(values);
  }

  /** at(p) on a list whose index only ever saw appends yields the element at
      the position the lookup reaches: position p itself for interval 1 or an
      even interval, and p + 1 where an odd interval makes the lookup overreach. */
  method ElementAt<T>(list: CircleNode<T>, p: int) returns (x: T)
    requires list.Valid() && list.IndexSound()
    requires 0 <= p < |list.Contents()|
    ensures 0 <= list.Reached(p) < |list.Contents()| && x == list.Contents()[list.Reached(p)]
    ensures (list.interval == 1 || list.interval % 2 == 0) ==> x == list.Contents()[p]
  {
    list.LocatedAfterAppends(p);
    var n := list.At(Some(p));
    x := n.data;
  }

  /** The unit test: interval 10, the values 1 to 20 appended, then position 6
      holds 7 and position 19 holds 20; after removeAt(10) position 10 holds 12. */
  method LookupAroundRemoval() returns (seventh: int, last: int, afterRemoval: int)
    ensures seventh == 7 && last == 20 && afterRemoval == 12
  {
    var values := [1, 2, 3, 4, 5, 6, 7, 8, 9, 10, 11, 12, 13, 14, 15, 16, 17, 18, 19, 20];
    var list := Build(10, values);
    seventh := ElementAt(list, 6);
    last := ElementAt(list, 19);
    afterRemoval := RemoveThenLookup(list, values);
  }

  /** removeAt(10) on the unit test's list, then at(10). The index slot 0 of
      position 9 is below the shifted slots and keeps its node. */
  method RemoveThenLookup(list: CircleNode<int>, values: seq<int>) returns (x: int)
    requires list.Valid() && list.IndexSound() && list.interval == 10 && list.Contents() == values
    requires |values| == 20 && values[11] == 12
    modifies list, list.index, list.Nodes
    ensures x == 12
  {
    assert list.nextIndex == 2 && list.index[0] == list.Nodes[9];
    list.RemovedAtPosition(10);
    list.RemoveAt(10);
    assert list.Contents()[10] == 12;
    assert list.index[0] != null;
    list.LocatedFromSlot(10);
    var n := list.At(Some(10));
    x := n.data;
  }

  /** With interval 3 and six elements, at(4) steps back from the slot of
      position 5. The lookup steps one node too few and yields 6, the element
      at position 5; the corrected lookup yields 5, the one at position 4. */
  method OddIntervalLookup() returns (found: int, ghost corrected: int)
    ensures found == 6 && corrected == 5
  {
    var list := Build(3, [1, 2, 3, 4, 5, 6]);
    assert list.nextIndex == 2;
    list.LocatedOddOverreach(4);
    list.LocatedCorrect(4);
    corrected := list.LocatedCorrected(Some(4)).data;
    assert list.Contents()[4] == 5 && list.Contents()[5] == 6;
    found := ElementAt(list, 4);
  }

  /** Two elements, both removed from the end, then one appended: a clockwise
      round shows just the new element. */
  method EmptiedThenAppend<T>(a: T, b: T, c: T) returns (shown: seq<T>)
    ensures shown == [c]
  {
    var list := CircleNode<T>.CreateByValues([a, b]);
    list.RemoveLast();
    list.RemoveLast();
    list.Add(c);
    var failed;
    var keep := (i: nat, x: T) => false;
    shown, failed := list.ForEachNext(keep);
    DeliveredAll(list.Contents(), keep, 0);
  }

  /** On the empty list removeLast and removeAt(0) change nothing and at(0)
      finds nothing. */
  method EmptyNoOps() returns (size: int, found: CircleNodes.DataNode?<int>, count: int)
    ensures size == 0 && found == null && count == 0
  {
    var list := new CircleNode<int>();
    list.RemoveLast();
    list.RemoveAt(0);
    found := list.At(Some(0));
    size := list.GetSize();
    count := list.modifyCount;
  }
}
