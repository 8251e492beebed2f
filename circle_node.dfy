/** The circular doubly-linked list of CircleNode.java: a cycle of DataNodes
    reached from `head`, a size counter, a fail-fast modification counter and a
    growable sparse index whose slot k is meant to hold the node at position
    (k + 1) * interval - 1. */
module CircleNodes {
  import opened JavaInt
  import opened Traversal

  datatype Option<T> = None | Some(value: T)

  /** The interval of the no-argument constructor. */
  const DefaultInterval := 1000

  /** One element and its two neighbour links. `data` is written once, when
      the node is created, so it is a constant here. */
  class DataNode<T> {
    const data: T
    var next: DataNode?<T>  // clockwise neighbour
    var prev: DataNode?<T>  // counter-clockwise neighbour

    constructor (data: T)
      ensures this.data == data && next == null && prev == null
    {
      this.data := data;
      next := null;
      prev := null;
    }
  }

  /** The elements held by a run of nodes, in the same order. */
  function Values<T>(ns: seq<DataNode<T>>): seq<T> {
    seq(|ns|, i requires 0 <= i < |ns| => ns[i].data)
  }

  /** The elements after an insertion are the old ones with the new one's
      element in between. */
  lemma ValuesInsert<T>(before: seq<DataNode<T>>, at: int, node: DataNode<T>, after: seq<DataNode<T>>)
    requires 0 <= at <= |before| && after == before[..at] + [node] + before[at..]
    ensures Values(after) == Values(before)[..at] + [node.data] + Values(before)[at..]
  {
  }

  /** The elements after a removal are the old ones without the removed one's. */
  lemma ValuesRemove<T>(before: seq<DataNode<T>>, at: int, after: seq<DataNode<T>>)
    requires 0 <= at < |before| && after == before[..at] + before[at + 1..]
    ensures Values(after) == Values(before)[..at] + Values(before)[at + 1..]
  {
  }

  /** The elements of joined runs are the joined elements. */
  lemma ValuesConcat<T>(a: seq<DataNode<T>>, b: seq<DataNode<T>>)
    ensures Values(a + b) == Values(a) + Values(b)
  {
  }

  /** The elements of a slice of nodes are the slice of their elements. */
  lemma ValuesSlice<T>(ns: seq<DataNode<T>>, k: int)
    requires 0 <= k <= |ns|
    ensures Values(ns[..k]) == Values(ns)[..k] && Values(ns[k..]) == Values(ns)[k..]
  {
  }

  /** The position of a node in a run of nodes. */
  ghost function IndexOf<T>(ns: seq<DataNode<T>>, n: DataNode<T>): (i: int)
    requires n in ns
    ensures 0 <= i < |ns| && ns[i] == n
  {
    if ns[0] == n then 0 else 1 + IndexOf(ns[1..], n)
  }

  /** In a run of distinct nodes, the node at position i is found at i. */
  lemma IndexOfDistinct<T>(ns: seq<DataNode<T>>, i: int)
    requires 0 <= i < |ns| && forall a, b :: 0 <= a < b < |ns| ==> ns[a] != ns[b]
    ensures IndexOf(ns, ns[i]) == i
  {
  }

  /** The first slot at or after `from` that is empty (or the end of the array):
      where the index-adjusting loop of a removal stops. */
  function FirstEmpty<T>(slots: seq<DataNode?<T>>, from: int): (j: int)
    requires 0 <= from
    ensures from <= j && (j < |slots| ==> slots[j] == null)
    ensures j == from || j <= |slots|
    ensures forall i :: from <= i < j ==> slots[i] != null
    decreases |slots| - from
  {
    if from >= |slots| || slots[from] == null then from else FirstEmpty(slots, from + 1)
  }

  /** The new slot array after `node` is registered in slot k, growing the array
      when k is past its end (the length the growth rule gives, the new tail empty). */
  ghost predicate Registered<T>(before: seq<DataNode?<T>>, k: int, node: DataNode<T>, after: seq<DataNode?<T>>)
    requires 1 <= |before|
  {
    0 <= k <= |before| &&
    |after| == (if k < |before| then |before| else GrownLength(|before|)) &&
    after[k] == node &&
    (forall j :: 0 <= j < |before| && j != k ==> after[j] == before[j]) &&
    (forall j :: |before| <= j < |after| && j != k ==> after[j] == null)
  }

  /** The length `growIndexSize` gives the index: half as long again, and at least
      one slot longer. */
  function GrownLength(len: int): (r: int)
    requires len >= 1
    ensures len < r <= 2 * len
  {
    var grown := len + len / 2;
    if grown == 1 then grown + 1 else grown
  }

  /** Every populated slot k holds the node at position (k + 1) * interval - 1. */
  ghost predicate ConsistentSlots<T>(slots: seq<DataNode?<T>>, ns: seq<DataNode<T>>, interval: int)
  {
    forall k :: 0 <= k < |slots| && slots[k] != null ==>
      0 <= (k + 1) * interval - 1 < |ns| && slots[k] == ns[(k + 1) * interval - 1]
  }

  /** FirstEmpty stops at the first empty slot (or the end) and nowhere else. */
  lemma {:induction false} FirstEmptyAt<T>(slots: seq<DataNode?<T>>, from: int, j: int)
    requires 0 <= from <= j <= |slots|
    requires forall k :: from <= k < j ==> slots[k] != null
    requires j == |slots| || slots[j] == null
    ensures FirstEmpty(slots, from) == j
    decreases j - from
  {
    if from < j {
      FirstEmptyAt(slots, from + 1, j);
    }
  }

  /** `after` is `before` with the slots from `from` up to the first empty one
      emptied (none when `from` is negative). */
  ghost predicate Cleared<T>(before: seq<DataNode?<T>>, from: int, after: seq<DataNode?<T>>) {
    |after| == |before| &&
    forall k :: 0 <= k < |after| ==>
      after[k] == (if 0 <= from && from <= k < FirstEmpty(before, from) then null else before[k])
  }

  /** removeLast's index upkeep keeps a sound index consistent: it empties the
      slots from (newSize - 1) / interval up to the first empty one, and every
      slot left below them still holds a live position. The one exception is
      interval 1 on a one-element list, where position -1 stops the upkeep
      before it starts. */
  lemma ConsistentAfterTruncate<T>(before: seq<DataNode?<T>>, filled: int, ns: seq<DataNode<T>>,
                                   interval: int, after: seq<DataNode?<T>>)
    requires SoundSlots(before, filled, ns, interval) && filled <= |before|
    requires 1 <= |ns| && (2 <= |ns| || 2 <= interval)
    requires Cleared(before, JavaDiv(|ns| - 2, interval), after)
    ensures ConsistentSlots(after, ns[..|ns| - 1], interval)
  {
    var from := JavaDiv(|ns| - 2, interval);
    JavaDivTowardZero(|ns| - 2, interval);
    var j := FirstEmpty(before, from);
    forall k | 0 <= k < |after| && after[k] != null
      ensures 0 <= (k + 1) * interval - 1 < |ns| - 1 && after[k] == ns[..|ns| - 1][(k + 1) * interval - 1]
    {
      assert after[k] == before[k];
      if k >= j {
        assert false;
      }
      assert k < from;
      MulMono(k + 1, from, interval);
    }
  }

  /** removeAt(p) took out position q: p itself, or p + 1 where the lookup
      overreaches, which leaves p short of the end of its slot's stretch. Its
      index upkeep from slot p / interval on then meets every slot at or after q. */
  predicate ShiftCovers(p: int, q: int, n: int, interval: int)
  {
    interval >= 1 && 0 <= p < n - 1 && (q == p || (q == p + 1 && p % interval + 2 <= interval))
  }

  /** Every slot from p / interval on ends at or after the removed position q. */
  lemma CoveredSlotEnd(p: int, q: int, n: int, interval: int, k: int)
    requires ShiftCovers(p, q, n, interval) && p / interval <= k
    ensures q <= (k + 1) * interval - 1
  {
    SlotEndsAfter(k, p, interval);
    if q == p + 1 {
      SlotEndsAfterNext(k, p, interval);
    }
  }

  /** removeAt's index upkeep keeps a sound index consistent: from slot p / interval
      up to the first empty one, each slot moves on to its successor (which, with the
      node at q gone, now sits at the slot's own position), or is emptied when that
      successor is head or p became the last position. */
  lemma ConsistentAfterRemoval<T>(before: seq<DataNode?<T>>, filled: int, ns: seq<DataNode<T>>,
                                  interval: int, p: int, q: int, after: seq<DataNode?<T>>)
    requires SoundSlots(before, filled, ns, interval) && filled <= |before|
    requires ShiftCovers(p, q, |ns|, interval) && |after| == |before|
    requires forall k :: 0 <= k < |after| ==>
      after[k] == (if p / interval <= k < FirstEmpty(before, p / interval) then
                     (if p == |ns| - 2 || (k + 1) * interval >= |ns| then null else ns[(k + 1) * interval])
                   else before[k])
    ensures ConsistentSlots(after, ns[..q] + ns[q + 1..], interval)
  {
    var from := p / interval;
    DivBounds(p, interval);
    DivMono(p, |ns|, interval);
    var j := FirstEmpty(before, from);
    assert filled <= j by {
      if j < filled {
        assert false;
      }
    }
    var rest := ns[..q] + ns[q + 1..];
    forall k | 0 <= k < |after| && after[k] != null
      ensures 0 <= (k + 1) * interval - 1 < |ns| - 1 && after[k] == rest[(k + 1) * interval - 1]
    {
      var t := (k + 1) * interval - 1;
      if k < from {
        assert after[k] == before[k] && k < filled;
        SlotEndsBefore(k, p, interval);
        assert rest[t] == ns[t];
      } else if k < j {
        CoveredSlotEnd(p, q, |ns|, interval, k);
        assert rest[t] == ns[t + 1];
      } else {
        assert false;
      }
    }
  }

  /** Slots as appends alone leave them: the first `filled == |ns| / interval`
      slots hold positions interval - 1, 2 * interval - 1, ..., the rest are empty. */
  ghost predicate SoundSlots<T>(slots: seq<DataNode?<T>>, filled: int, ns: seq<DataNode<T>>, interval: int)
  {
    interval >= 1 &&
    filled == |ns| / interval &&
    forall k :: 0 <= k < |slots| ==>
      if k < filled then
        0 <= (k + 1) * interval - 1 < |ns| && slots[k] == ns[(k + 1) * interval - 1]
      else
        slots[k] == null
  }

  /** A populated sound slot is one of the first `filled` and holds its position. */
  lemma SoundSlotAt<T>(slots: seq<DataNode?<T>>, filled: int, ns: seq<DataNode<T>>, interval: int, k: int)
    requires SoundSlots(slots, filled, ns, interval) && 0 <= k < |slots| && slots[k] != null
    ensures k < filled && 0 <= (k + 1) * interval - 1 < |ns| && slots[k] == ns[(k + 1) * interval - 1]
  {
  }

  /** One append keeps the slots sound: the new node is registered exactly when
      the new length is a multiple of the interval. */
  lemma SoundAfterAppend<T>(before: seq<DataNode?<T>>, filled: int, ns: seq<DataNode<T>>, node: DataNode<T>,
                            after: seq<DataNode?<T>>, filledAfter: int, interval: int)
    requires 1 <= |before| && filled <= |before| && SoundSlots(before, filled, ns, interval)
    requires (|ns| + 1) % interval == 0 ==> filledAfter == filled + 1 && Registered(before, filled, node, after)
    requires (|ns| + 1) % interval != 0 ==> filledAfter == filled && after == before
    ensures SoundSlots(after, filledAfter, ns + [node], interval)
  {
    DivStep(|ns|, interval);
    if (|ns| + 1) % interval == 0 {
      MulDivExact(|ns| + 1, interval);
      SoundAfterRegister(before, filled, ns, node, after, interval);
    } else {
      SoundAfterSkip(before, filled, ns, node, interval);
    }
  }

  lemma SoundAfterRegister<T>(before: seq<DataNode?<T>>, filled: int, ns: seq<DataNode<T>>, node: DataNode<T>,
                              after: seq<DataNode?<T>>, interval: int)
    requires 1 <= |before| && SoundSlots(before, filled, ns, interval)
    requires (filled + 1) * interval == |ns| + 1 && (|ns| + 1) / interval == filled + 1
    requires Registered(before, filled, node, after)
    ensures SoundSlots(after, filled + 1, ns + [node], interval)
  {
    forall k | 0 <= k < |after|
      ensures if k < filled + 1 then
          0 <= (k + 1) * interval - 1 < |ns| + 1 && after[k] == (ns + [node])[(k + 1) * interval - 1]
        else
          after[k] == null
    {
      if k < filled {
        assert after[k] == before[k];
      }
    }
  }

  lemma SoundAfterSkip<T>(slots: seq<DataNode?<T>>, filled: int, ns: seq<DataNode<T>>, node: DataNode<T>, interval: int)
    requires SoundSlots(slots, filled, ns, interval) && (|ns| + 1) / interval == filled
    ensures SoundSlots(slots, filled, ns + [node], interval)
  {
    var grown := ns + [node];
    forall k | 0 <= k < |slots|
      ensures if k < filled then
          0 <= (k + 1) * interval - 1 < |grown| && slots[k] == grown[(k + 1) * interval - 1]
        else
          slots[k] == null
    {
      if k < filled {
        var p := (k + 1) * interval - 1;
        assert 0 <= p < |ns| && slots[k] == ns[p];
        assert grown[p] == ns[p];
      }
    }
  }

  class CircleNode<T> {
    const interval: int  // INDEX_INTERVAL, fixed by the constructor
    var head: DataNode?<T>
    var size: int
    var index: array<DataNode?<T>>
    var nextIndex: int
    var modifyCount: int

    /** The live nodes in `next` order, from head. */
    ghost var Nodes: seq<DataNode<T>>
    /** Every node that has ever had both links set, live or removed. A stale
        index slot may still point at a removed one. */
    ghost var Known: set<DataNode<T>>

    /** The elements, by position. */
    ghost function Contents(): seq<T>
      reads this`Nodes
    {
      Values(Nodes)
    }

    /** The one-node list built by a single append: its links are still null. */
    ghost predicate Unlinked()
      reads this`Nodes, Nodes
    {
      |Nodes| == 1 && Nodes[0].next == null && Nodes[0].prev == null
    }

    /** The live nodes form a closed cycle: each one's `next` is the following
        position and its `prev` the preceding one, wrapping around at the ends. */
    ghost predicate Linked()
      reads this`Nodes, this`Known, Nodes
    {
      (forall i :: 0 <= i < |Nodes| ==> Nodes[i] in Known) &&
      (forall i {:trigger Nodes[i].next} :: 0 <= i < |Nodes| ==>
         Nodes[i].next == (if i + 1 < |Nodes| then Nodes[i + 1] else Nodes[0])) &&
      (forall i {:trigger Nodes[i].prev} :: 0 <= i < |Nodes| ==>
         Nodes[i].prev == (if i == 0 then Nodes[|Nodes| - 1] else Nodes[i - 1]))
    }

    /** Links of known nodes are never null and lead to known nodes, so a walk
        from a known node, even a removed one, never meets null. */
    ghost predicate KnownClosed()
      reads this`Known, Known
    {
      forall n {:trigger n.next} {:trigger n.prev} :: n in Known ==>
        n.next != null && n.prev != null && n.next in Known && n.prev in Known
    }

    ghost predicate Valid()
      reads this`size, this`head, this`Nodes, this`Known, this`index, this`nextIndex, index, Nodes, Known
    {
      Shape() && SlotsKnown()
    }

    /** The node structure: `size` counts the distinct live nodes, `head` is the
        first of them, and they form the unlinked singleton or a closed cycle. */
    ghost predicate Shape()
      reads this`size, this`head, this`Nodes, this`Known, Nodes, Known
    {
      interval >= 1 &&
      size == |Nodes| &&
      (forall i, j :: 0 <= i < j < |Nodes| ==> Nodes[i] != Nodes[j]) &&
      (head == null <==> Nodes == []) &&
      (Nodes != [] ==> head == Nodes[0]) &&
      (Unlinked() || Linked()) &&
      KnownClosed()
    }

    /** The index array is non-empty, its cursor within bounds, and each slot is
        empty or a node a walk can start from. */
    ghost predicate SlotsKnown()
      reads this`index, this`nextIndex, this`head, this`Nodes, this`Known, index, Nodes
    {
      1 <= index.Length && 0 <= nextIndex <= index.Length &&
      (forall k :: 0 <= k < index.Length ==>
         index[k] == null || index[k] in Known || (Unlinked() && index[k] == head))
    }

    /** Every populated slot k holds the node at position (k + 1) * interval - 1. */
    ghost predicate IndexConsistent()
      reads this`Nodes, this`index, index
    {
      ConsistentSlots(index[..], Nodes, interval)
    }

    /** The index as a history of appends leaves it. */
    ghost predicate IndexSound()
      reads this`Nodes, this`index, this`nextIndex, index
    {
      interval >= 1 && SoundSlots(index[..], nextIndex, Nodes, interval)
    }

    constructor ()
      ensures Valid() && IndexSound() && fresh(index)
      ensures interval == DefaultInterval && Nodes == [] && modifyCount == 0
    {
      interval := DefaultInterval;
      head := null;
      size := 0;
      index := new DataNode?<T>[1](_ => null);
      nextIndex := 0;
      modifyCount := 0;
      Nodes := [];
      Known := {};
    }

    constructor WithInterval(indexInterval: int)
      requires indexInterval >= 1
      ensures Valid() && IndexSound() && fresh(index)
      ensures interval == indexInterval && Nodes == [] && modifyCount == 0
    {
      interval := indexInterval;
      head := null;
      size := 0;
      index := new DataNode?<T>[1](_ => null);
      nextIndex := 0;
      modifyCount := 0;
      Nodes := [];
      Known := {};
    }

    function GetSize(): (n: int)
      reads this`size, this`head, this`Nodes, this`Known, this`index, this`nextIndex, index, Nodes, Known
      requires Valid()
      ensures n == |Contents()|
    {
      size
    }

    function GetLastPosition(): (p: int)
      reads this`size, this`head, this`Nodes, this`Known, this`index, this`nextIndex, index, Nodes, Known
      requires Valid()
      ensures p == |Contents()| - 1
      ensures p < 0 <==> Contents() == []
    {
      size - 1
    }

    /** head.prev: the node at the last position, except on a one-node list
        whose links were never set. */
    function GetTailNode(): (r: DataNode?<T>)
      reads this`size, this`head, this`Nodes, this`Known, this`index, this`nextIndex, index, Nodes, Known
      requires Valid() && head != null
      ensures Unlinked() ==> r == null
      ensures !Unlinked() ==> r == Nodes[|Nodes| - 1]
    {
      TailLink();
      head.prev
    }

    /** The links of the node at position i, read off the cycle. */
    lemma NeighboursAt(i: int)
      requires Valid() && !Unlinked() && 0 <= i < |Nodes|
      ensures Nodes[i] in Known
      ensures Nodes[i].next == (if i + 1 < |Nodes| then Nodes[i + 1] else Nodes[0])
      ensures Nodes[i].prev == (if i == 0 then Nodes[|Nodes| - 1] else Nodes[i - 1])
    {
    }

    lemma TailLink()
      requires Valid() && head != null
      ensures !Unlinked() ==> head.prev == Nodes[|Nodes| - 1]
    {
      if !Unlinked() {
        NeighboursAt(0);
      }
    }

    /** findIndex: the slot at `position`, or nothing past the array's end. */
    function FindIndex(position: int): (r: DataNode?<T>)
      reads this`index, index
      requires 0 <= position
      ensures position >= index.Length ==> r == null
      ensures IndexSound() && position < nextIndex <= index.Length ==>
        0 <= (position + 1) * interval - 1 < |Nodes| && r == Nodes[(position + 1) * interval - 1]
      ensures IndexSound() && nextIndex <= position ==> r == null
    {
      if position >= index.Length then null else index[position]
    }

    method GrowIndexSize()
      requires 1 <= index.Length
      modifies this`index
      ensures fresh(index) && index.Length == GrownLength(old(index.Length))
      ensures index[..old(index.Length)] == old(index[..])
      ensures forall k :: old(index.Length) <= k < index.Length ==> index[k] == null
    {
      var grown := new DataNode?<T>[GrownLength(index.Length)](_ => null);
      forall k | 0 <= k < index.Length {
        grown[k] := index[k];
      }
      index := grown;
    }

    method AddIndex(node: DataNode<T>)
      requires 1 <= index.Length && 0 <= nextIndex <= index.Length
      modifies this`index, this`nextIndex, index
      ensures nextIndex == old(nextIndex) + 1 <= index.Length
      ensures index == old(index) || fresh(index)
      ensures Registered(old(index[..]), old(nextIndex), node, index[..])
    {
      if nextIndex + 1 > index.Length {
        GrowIndexSize();
      }
      index[nextIndex] := node;
      nextIndex := nextIndex + 1;
    }

    /** The index after checkIndex(node): node is registered in the next slot
        when the size is a positive multiple of the interval, and nothing changes
        otherwise. */
    ghost predicate IndexGrown(slots: seq<DataNode?<T>>, filled: int, node: DataNode<T>)
      reads this`size, this`nextIndex, this`index, index
      requires 1 <= |slots| && interval >= 1
    {
      if size != 0 && size % interval == 0 then
        nextIndex == filled + 1 && Registered(slots, filled, node, index[..])
      else
        nextIndex == filled && index[..] == slots
    }

    /** Registers `node` when the size has just reached a multiple of the interval. */
    method CheckIndex(node: DataNode<T>)
      requires Valid() && (node in Known || (Unlinked() && node == head))
      modifies this`index, this`nextIndex, index
      ensures Valid()
      ensures index == old(index) || fresh(index)
      ensures IndexGrown(old(index[..]), old(nextIndex), node)
    {
      if size != 0 && size % interval == 0 {
        AddIndex(node);
      }
    }

    /** The linking half of `add`: `node` becomes the last node, just before head. */
    method Attach(node: DataNode<T>)
      requires Valid() && node !in Nodes && node !in Known
      requires node.next == null && node.prev == null
      modifies this`head, this`size, this`Nodes, this`Known, Nodes, node
      ensures Valid()
      ensures Nodes == old(Nodes) + [node] && Known >= old(Known)
      ensures size == old(size) + 1
      ensures old(head) != null ==> head == old(head)
      ensures |Nodes| >= 2 ==> head.prev == node
    {
      var h := head;
      var last := if h == null then null else GetTailNode();
      if h == null {
        head := node;
        size := size + 1;
        Nodes := [node];
      } else if h.next == null {
        LinkPair(node);
      } else {
        // the tail is never null here: the source's `if (last == null) last = next` is dead;
        // the writes are those of an insertion after the tail
        ghost var N := Nodes;
        IndexOfDistinct(N, |N| - 1);
        Splice(last, node);
        NeighboursAt(|Nodes| - 1);
      }
    }

    /** The first node of a one-node list gets its links: the two nodes link to
        each other both ways. */
    method LinkPair(node: DataNode<T>)
      requires Valid() && Unlinked() && node !in Known && node != head
      modifies this`size, this`Nodes, this`Known, head, node
      ensures Valid() && head == old(head)
      ensures Nodes == old(Nodes) + [node] && Known == old(Known) + {head, node}
      ensures size == old(size) + 1 && head.prev == node
    {
      var h := head;
      h.next := node;
      h.prev := node;
      node.prev := h;
      node.next := h;
      h.prev := node;
      size := size + 1;
      Nodes := Nodes + [node];
      Known := Known + {h, node};
      forall m {:trigger m.next} {:trigger m.prev} | m in Known
        ensures m.next != null && m.prev != null && m.next in Known && m.prev in Known
      {
        if m != h && m != node {
          assert old(m.next) in old(Known) && old(m.prev) in old(Known);
        }
      }
    }

    /** The static `add`: appends one element just before head. */
    method Add(data: T)
      requires Valid()
      modifies this, index, Nodes
      ensures Valid()
      ensures |Nodes| > 0 && Nodes == old(Nodes) + [Nodes[|Nodes| - 1]]
      ensures fresh(Nodes[|Nodes| - 1]) && Known >= old(Known)
      ensures Contents() == old(Contents()) + [data]
      ensures size == old(size) + 1 && modifyCount == old(modifyCount) + 1
      ensures old(head) != null ==> head == old(head)
      ensures |Nodes| >= 2 ==> head.prev == Nodes[|Nodes| - 1]
      ensures index == old(index) || fresh(index)
      ensures IndexGrown(old(index[..]), old(nextIndex), Nodes[|Nodes| - 1])
      ensures old(IndexSound()) ==> IndexSound()
    {
      ghost var oldSound := IndexSound();
      // recordOperatedCount comes last in the source; nothing reads the count
      // in between
      modifyCount := modifyCount + 1;
      var next := new DataNode(data);
      Attach(next);
      assert Valid();
      ghost var slots, filled := index[..], nextIndex;
      CheckIndex(next);
      if oldSound {
        SoundAfterAppend(slots, filled, old(Nodes), next, index[..], nextIndex, interval);
      }
      ValuesConcat(old(Nodes), [next]);
    }

    /** The varargs `add`: appends the values one by one, in argument order. */
    method AddAll(values: seq<T>)
      requires Valid()
      modifies this, index, Nodes
      ensures Valid() && Known >= old(Known)
      ensures Contents() == old(Contents()) + values
      ensures size == old(size) + |values| && modifyCount == old(modifyCount) + |values|
      ensures old(head) != null ==> head == old(head)
      ensures old(IndexSound()) ==> IndexSound()
      ensures index == old(index) || fresh(index)
      ensures forall j :: 0 <= j < |Nodes| ==> Nodes[j] in old(Nodes) || fresh(Nodes[j])
    {
      var i := 0;
      while i < |values|
        invariant 0 <= i <= |values| && Valid() && Known >= old(Known)
        invariant Contents() == old(Contents()) + values[..i]
        invariant size == old(size) + i && modifyCount == old(modifyCount) + i
        invariant old(head) != null ==> head == old(head)
        invariant old(IndexSound()) ==> IndexSound()
        invariant index == old(index) || fresh(index)
        invariant forall j :: 0 <= j < |Nodes| ==> Nodes[j] in old(Nodes) || fresh(Nodes[j])
      {
        Add(values[i]);
        assert values[..i + 1] == values[..i] + [values[i]];
        i := i + 1;
      }
      assert values[..i] == values;
    }

    /** createByValues: a list with the default interval holding the values in
        argument order. */
    static method CreateByValues(values: seq<T>) returns (r: CircleNode<T>)
      ensures fresh(r) && r.Valid() && r.IndexSound() && r.interval == DefaultInterval
      ensures r.Contents() == values && r.size == |values| && r.modifyCount == |values|
      ensures fresh(r.index) && forall j :: 0 <= j < |r.Nodes| ==> fresh(r.Nodes[j])
    {
      r := new CircleNode();
      r.AddAll(values);
    }

    /** The node reached from n by d `next` steps. */
    ghost function Forward(n: DataNode<T>, d: nat): (r: DataNode<T>)
      reads this`Known, Known
      requires KnownClosed() && n in Known
      ensures r in Known
      decreases d
    {
      if d == 0 then n else Forward(n.next, d - 1)
    }

    /** The node reached from n by d `prev` steps. */
    ghost function Backward(n: DataNode<T>, d: nat): (r: DataNode<T>)
      reads this`Known, Known
      requires KnownClosed() && n in Known
      ensures r in Known
      decreases d
    {
      if d == 0 then n else Backward(n.prev, d - 1)
    }

    /** Walking clockwise from a live node goes round the cycle. */
    lemma {:induction false} ForwardAt(i: int, d: nat)
      requires Valid() && !Unlinked() && 0 <= i < |Nodes|
      ensures Forward(Nodes[i], d) == Nodes[(i + d) % |Nodes|]
      decreases d
    {
      NeighboursAt(i);
      if d == 0 {
        ModSmall(i, |Nodes|);
      } else {
        var j := (i + 1) % |Nodes|;
        assert Nodes[i].next == Nodes[j] by {
          if i + 1 < |Nodes| {
            ModSmall(i + 1, |Nodes|);
          } else {
            ModSmall(0, |Nodes|);
            ModShift(0, |Nodes|);
          }
        }
        ForwardAt(j, d - 1);
        ModAdd(i + 1, d - 1, |Nodes|);
      }
    }

    /** Walking counter-clockwise from a live node goes round the cycle the other way. */
    lemma {:induction false} BackwardAt(i: int, d: nat)
      requires Valid() && !Unlinked() && 0 <= i < |Nodes|
      ensures Backward(Nodes[i], d) == Nodes[(i - d) % |Nodes|]
      decreases d
    {
      NeighboursAt(i);
      if d == 0 {
        ModSmall(i, |Nodes|);
      } else {
        var j := (i - 1) % |Nodes|;
        assert Nodes[i].prev == Nodes[j] by {
          if i > 0 {
            ModSmall(i - 1, |Nodes|);
          } else {
            ModSmall(|Nodes| - 1, |Nodes|);
            ModShift(-1, |Nodes|);
          }
        }
        BackwardAt(j, d - 1);
        ModAdd(i - 1, -(d - 1), |Nodes|);
      }
    }

    /** Going once round the cycle, either way, comes back to the start. */
    lemma CycleClosure(i: int)
      requires Valid() && !Unlinked() && 0 <= i < |Nodes|
      ensures Forward(Nodes[i], |Nodes|) == Nodes[i]
      ensures Backward(Nodes[i], |Nodes|) == Nodes[i]
    {
      ForwardAt(i, |Nodes|);
      BackwardAt(i, |Nodes|);
      ModShift(i, |Nodes|);
      ModShift(i - |Nodes|, |Nodes|);
      ModSmall(i, |Nodes|);
    }

    /** findByClockWise: dist `next` steps from start; start itself when dist <= 0. */
    method FindByClockWise(start: DataNode?<T>, dist: int) returns (r: DataNode?<T>)
      requires KnownClosed()
      requires dist > 0 ==> start != null && start in Known
      ensures dist <= 0 ==> r == start
      ensures dist > 0 ==> r == Forward(start, dist)
    {
      if dist == 0 {
        return start;
      }
      var current := start;
      var d := dist;
      while d > 0
        invariant dist <= 0 ==> current == start
        invariant dist > 0 ==> 0 <= d && current != null && current in Known && Forward(current, d) == Forward(start, dist)
      {
        current := current.next;
        d := d - 1;
      }
      r := current;
    }

    /** findByCounterClockWise: dist `prev` steps from start; start itself when dist <= 0. */
    method FindByCounterClockWise(start: DataNode?<T>, dist: int) returns (r: DataNode?<T>)
      requires KnownClosed()
      requires dist > 0 ==> start != null && start in Known
      ensures dist <= 0 ==> r == start
      ensures dist > 0 ==> r == Backward(start, dist)
    {
      var distance := dist;
      var current := start;
      while distance > 0
        invariant dist <= 0 ==> current == start
        invariant dist > 0 ==> 0 <= distance && current != null && current in Known && Backward(current, distance) == Backward(start, dist)
      {
        current := current.prev;
        distance := distance - 1;
      }
      r := current;
    }

    /** The lookup of position p never walks from an empty index slot (which would
        dereference null): the position is absent, past the end, before the first
        slot, exactly on a slot, reached back from a populated next slot, or walked
        to from a populated slot. */
    ghost predicate LookupSafe(p: Option<int>)
      reads this`size, this`head, this`Nodes, this`Known, this`index, this`nextIndex, index, Nodes, Known
      requires Valid()
    {
      match p
      case None => true
      case Some(p) =>
        p > size - 1 || p < interval - 1 ||
        var k := LookupSlot(p);
        var d := (p + 1) % interval;
        d == 0 || (FindIndex(k + 1) != null && d > interval / 2) || FindIndex(k) != null
    }

    /** The slot a lookup of position p starts from. */
    function LookupSlot(p: int): (k: int)
      requires interval >= 1 && p >= interval - 1
      ensures 0 <= k && (k + 1) * interval <= p + 1 < (k + 2) * interval
    {
      DivAtLeastOne(p + 1, interval);
      DivBounds(p + 1, interval);
      (p + 1) / interval - 1
    }

    /** The node findSpecificNode returns for position p, step by step as the
        lookup takes it. */
    ghost function Located(p: Option<int>): (r: DataNode?<T>)
      reads this`size, this`head, this`Nodes, this`Known, this`index, this`nextIndex, index, Nodes, Known
      requires Valid() && LookupSafe(p)
    {
      match p
      case None => null
      case Some(p) =>
        if p > size - 1 then null
        else if p < interval - 1 then
          (if p <= 0 then head else NeighboursAt(0); Forward(head, p))
        else
          var k := LookupSlot(p);
          var d := (p + 1) % interval;
          var begin := FindIndex(k);
          if d == 0 then begin
          else
            var after := FindIndex(k + 1);
            var half := interval / 2;
            if after != null && d - half > 0 then Backward(after, half - (d - half))
            else Forward(begin, d)
    }

    /** The lookup of position p walks back from the following slot with an odd
        interval. It then steps half - (d - half) = interval - 1 - d nodes, one
        fewer than the interval - d that lead to position p. */
    ghost predicate Overreaches(p: int)
      reads this`index, index
      requires interval >= 1
    {
      interval % 2 == 1 && interval - 1 <= p &&
      (p + 1) % interval > interval / 2 && FindIndex(LookupSlot(p) + 1) != null
    }

    /** The position whose node the lookup of p yields on a consistent index:
        p, or p + 1 where it overreaches. */
    ghost function Reached(p: int): int
      reads this`index, index
      requires interval >= 1
    {
      if Overreaches(p) then p + 1 else p
    }

    /** The sound index of an append-only history is consistent. */
    lemma SoundIsConsistent()
      requires IndexSound()
      ensures IndexConsistent()
    {
    }

    /** A lookup that walks clockwise from its slot (or stops on it) finds the
        node at position p, whatever the interval's parity. */
    lemma LocatedFromSlot(p: int)
      requires Valid() && IndexConsistent() && interval - 1 <= p < |Nodes|
      requires FindIndex(LookupSlot(p)) != null
      requires var d := (p + 1) % interval;
        !(FindIndex(LookupSlot(p) + 1) != null && d != 0 && d - interval / 2 > 0)
      ensures LookupSafe(Some(p)) && Located(Some(p)) == Nodes[p]
    {
      var k := LookupSlot(p);
      var begin := FindIndex(k);
      var at := (k + 1) * interval - 1;
      assert 0 <= at < |Nodes| && begin == Nodes[at];
      var d := (p + 1) % interval;
      DivMod(p + 1, interval);
      assert at + d == p;
      if d != 0 {
        ForwardAt(at, d);
        ModSmall(p, |Nodes|);
      }
    }

    /** A lookup that walks counter-clockwise from the following slot finds the
        node at position p when the interval is even, and the one at p + 1 when
        it is odd. */
    lemma LocatedFromNextSlot(p: int)
      requires Valid() && IndexConsistent() && interval - 1 <= p < |Nodes|
      requires var d := (p + 1) % interval;
        FindIndex(LookupSlot(p) + 1) != null && d != 0 && d - interval / 2 > 0
      ensures LookupSafe(Some(p)) && 0 <= Reached(p) < |Nodes| && Located(Some(p)) == Nodes[Reached(p)]
    {
      var k := LookupSlot(p);
      var after := FindIndex(k + 1);
      var at := (k + 1 + 1) * interval - 1;
      assert 0 <= at < |Nodes| && after == Nodes[at];
      var d := (p + 1) % interval;
      var half := interval / 2;
      DivMod(p + 1, interval);
      DivMod(interval, 2);
      StepsBack(p + 1, interval, k + 1, d, half);
      assert at - (half - (d - half)) == Reached(p);
      BackwardAt(at, half - (d - half));
      ModSmall(Reached(p), |Nodes|);
    }

    /** On a consistent index, wherever the lookup yields a node, it is the one
        at position p, or at p + 1 where an odd interval makes it overreach. */
    lemma LocatedReached(p: int)
      requires Valid() && IndexConsistent() && 0 <= p < |Nodes|
      requires LookupSafe(Some(p)) && Located(Some(p)) != null
      ensures 0 <= Reached(p) < |Nodes| && Located(Some(p)) == Nodes[Reached(p)]
    {
      if p < interval - 1 {
        if p > 0 {
          ForwardAt(0, p);
          ModSmall(p, |Nodes|);
        }
      } else {
        var k := LookupSlot(p);
        var d := (p + 1) % interval;
        if FindIndex(k + 1) != null && d != 0 && d - interval / 2 > 0 {
          LocatedFromNextSlot(p);
        } else {
          LocatedFromSlot(p);
        }
      }
    }

    /** After appends alone the lookup of every live position is safe and finds
        that position's node, or the next one where an odd interval makes it
        overreach. With an even interval or interval 1 that is always position
        p. */
    lemma LocatedAfterAppends(p: int)
      requires Valid() && IndexSound() && 0 <= p < |Nodes|
      ensures LookupSafe(Some(p)) && 0 <= Reached(p) < |Nodes| && Located(Some(p)) == Nodes[Reached(p)]
      ensures (interval == 1 || interval % 2 == 0) ==> Reached(p) == p
    {
      SoundIsConsistent();
      if p >= interval - 1 {
        var k := LookupSlot(p);
        MulLeDiv(k + 1, interval, |Nodes|);
        assert FindIndex(k) != null;
      }
      LocatedReached(p);
    }

    /** With an odd interval the counter-clockwise branch steps back interval - 1 - d
        instead of interval - d nodes, and lands one position too far. */
    lemma LocatedOddOverreach(p: int)
      requires Valid() && IndexSound() && 3 <= interval && interval % 2 == 1
      requires interval - 1 <= p < |Nodes|
      requires (p + 1) % interval > interval / 2 && (p + 1) / interval < nextIndex
      ensures p + 1 < |Nodes| && LookupSafe(Some(p)) && Located(Some(p)) == Nodes[p + 1]
    {
      var k := LookupSlot(p);
      assert k + 1 < nextIndex;
      var after := FindIndex(k + 1);
      var at := (k + 1 + 1) * interval - 1;
      assert 0 <= at < |Nodes| && after == Nodes[at];
      var d := (p + 1) % interval;
      var half := interval / 2;
      DivMod(p + 1, interval);
      DivMod(interval, 2);
      StepsBack(p + 1, interval, k + 1, d, half);
      BackwardAt(at, half - (d - half));
      ModSmall(p + 1, |Nodes|);
    }

    /** The lookup as evidently intended: stepping back from the following slot
        takes interval - d steps, which is what half - (d - half) gives for an
        even interval only. */
    ghost function LocatedCorrected(p: Option<int>): (r: DataNode?<T>)
      reads this`size, this`head, this`Nodes, this`Known, this`index, this`nextIndex, index, Nodes, Known
      requires Valid() && LookupSafe(p)
    {
      match p
      case None => null
      case Some(p) =>
        if p > size - 1 then null
        else if p < interval - 1 then
          (if p <= 0 then head else NeighboursAt(0); Forward(head, p))
        else
          var k := LookupSlot(p);
          var d := (p + 1) % interval;
          var begin := FindIndex(k);
          if d == 0 then begin
          else
            var after := FindIndex(k + 1);
            if after != null && d - interval / 2 > 0 then Backward(after, interval - d)
            else Forward(begin, d)
    }

    /** With the intended step count the lookup finds the node at position p
        whatever the interval's parity, wherever it yields a node. */
    lemma LocatedCorrect(p: int)
      requires Valid() && IndexConsistent() && 0 <= p < |Nodes|
      requires LookupSafe(Some(p)) && LocatedCorrected(Some(p)) != null
      ensures LocatedCorrected(Some(p)) == Nodes[p]
    {
      if p < interval - 1 {
        if p > 0 {
          ForwardAt(0, p);
          ModSmall(p, |Nodes|);
        }
      } else {
        var k := LookupSlot(p);
        var d := (p + 1) % interval;
        var after := FindIndex(k + 1);
        if after != null && d != 0 && d - interval / 2 > 0 {
          var at := (k + 1 + 1) * interval - 1;
          assert 0 <= at < |Nodes| && after == Nodes[at];
          DivMod(p + 1, interval);
          assert at - (interval - d) == p;
          BackwardAt(at, interval - d);
          ModSmall(p, |Nodes|);
        } else {
          LocatedFromSlot(p);
        }
      }
    }

    /** For an even interval (or interval 1) the correction changes nothing. */
    lemma LocatedCorrectedAgrees(p: Option<int>)
      requires Valid() && LookupSafe(p) && (interval == 1 || interval % 2 == 0)
      ensures LocatedCorrected(p) == Located(p)
    {
      DivMod(interval, 2);
    }

    /** findSpecificNode: the lookup of a position, using the index to start
        near it. */
    method FindSpecificNode(nodePosition: Option<int>) returns (r: DataNode?<T>)
      requires Valid() && LookupSafe(nodePosition)
      ensures r == Located(nodePosition)
      ensures nodePosition.None? || nodePosition.value > |Nodes| - 1 ==> r == null
      ensures nodePosition.Some? && nodePosition.value < 0 ==> r == head
      ensures (IndexSound() && nodePosition.Some? && 0 <= nodePosition.value < |Nodes|) ==>
        0 <= Reached(nodePosition.value) < |Nodes| && r == Nodes[Reached(nodePosition.value)]
    {
      if IndexSound() && nodePosition.Some? && 0 <= nodePosition.value < |Nodes| {
        LocatedAfterAppends(nodePosition.value);
      }
      if nodePosition.None? || nodePosition.value > size - 1 {
        return null;
      }
      var position := nodePosition.value;
      var beginNode := head;
      if position < interval - 1 {
        if position > 0 {
          NeighboursAt(0);
        }
        r := FindByClockWise(beginNode, position);
        return;
      }
      var realPosition := position + 1;
      var indexPosition := LookupSlot(position);
      beginNode := FindIndex(indexPosition);
      var distanceFromCurrentIndex := realPosition % interval;
      if distanceFromCurrentIndex == 0 {
        return beginNode;
      }
      var followingIndex := FindIndex(indexPosition + 1);
      var halfIndexInterval := interval / 2;
      var distanceFromNextIndex := distanceFromCurrentIndex - halfIndexInterval;
      var isCloserFromNextIndex := distanceFromNextIndex > 0;
      if followingIndex != null && isCloserFromNextIndex {
        r := FindByCounterClockWise(followingIndex, halfIndexInterval - distanceFromNextIndex);
      } else {
        r := FindByClockWise(beginNode, distanceFromCurrentIndex);
      }
    }

    /** at: the public face of the lookup. */
    method At(specificID: Option<int>) returns (r: DataNode?<T>)
      requires Valid() && LookupSafe(specificID)
      ensures r == Located(specificID)
      ensures specificID.None? || specificID.value > |Nodes| - 1 ==> r == null
      ensures (IndexSound() && specificID.Some? && 0 <= specificID.value < |Nodes|) ==>
        0 <= Reached(specificID.value) < |Nodes| && r == Nodes[Reached(specificID.value)]
    {
      r := FindSpecificNode(specificID);
    }

    /** addAfter's preconditions: past the end it appends; otherwise the lookup is
        safe and yields nothing (it appends), or a live node of a linked list (a
        removed node or a null `next` would be corrupted or dereferenced). */
    ghost predicate InsertableAt(p: int)
      reads this`size, this`head, this`Nodes, this`Known, this`index, this`nextIndex, index, Nodes, Known
      requires Valid()
    {
      p > size - 1 ||
      (LookupSafe(Some(p)) &&
       (Located(Some(p)) == null || (Located(Some(p)) in Nodes && !Unlinked())))
    }

    /** The position the element added by addAfter(p, _) takes. */
    ghost function InsertedAt(p: int): (at: int)
      reads this`size, this`head, this`Nodes, this`Known, this`index, this`nextIndex, index, Nodes, Known
      requires Valid() && InsertableAt(p)
      ensures 0 <= at <= |Nodes|
    {
      if p > size - 1 || Located(Some(p)) == null then |Nodes|
      else IndexOf(Nodes, Located(Some(p))) + 1
    }

    /** With a sound index addAfter(p, _) inserts right after the position the
        lookup reaches: p, or p + 1 where an odd interval makes it overreach. A
        negative p inserts after head. */
    lemma InsertedAtPosition(p: int)
      requires Valid() && IndexSound()
      requires p < |Nodes| && !Unlinked()
      ensures InsertableAt(p)
      ensures 0 <= p ==> InsertedAt(p) == Reached(p) + 1
      ensures 0 <= p && (interval == 1 || interval % 2 == 0) ==> InsertedAt(p) == p + 1
      ensures p < 0 ==> InsertedAt(p) == |Nodes| == 0 || InsertedAt(p) == 1
    {
      if 0 <= p {
        LocatedAfterAppends(p);
        IndexOfDistinct(Nodes, Reached(p));
      } else if Nodes != [] {
        IndexOfDistinct(Nodes, 0);
      }
    }

    /** The node structure after Splice: the links of the old cycle, except the
        two rewritten around the inserted node, close the new one. */
    lemma SplicedShape(N: seq<DataNode<T>>, K: set<DataNode<T>>, q: int, node: DataNode<T>)
      requires 0 <= q < |N| && Nodes == N[..q + 1] + [node] + N[q + 1..]
      requires forall i, j :: 0 <= i < j < |N| ==> N[i] != N[j]
      requires node !in N && node !in K && Known == K + {node}
      requires forall i :: 0 <= i < |N| ==> N[i] in K
      requires interval >= 1 && size == |Nodes| && head == N[0]
      requires forall i {:trigger N[i].next} :: 0 <= i < |N| && i != q ==>
        N[i].next == (if i + 1 < |N| then N[i + 1] else N[0])
      requires forall i {:trigger N[i].prev} :: 0 <= i < |N| && N[i] != (if q + 1 < |N| then N[q + 1] else N[0]) ==>
        N[i].prev == (if i == 0 then N[|N| - 1] else N[i - 1])
      requires N[q].next == node && node.prev == N[q]
      requires node.next == (if q + 1 < |N| then N[q + 1] else N[0]) && node.next.prev == node
      requires forall m {:trigger m.next} {:trigger m.prev} :: m in K ==>
        m.next != null && m.prev != null && (m.next in K || m.next == node) && (m.prev in K || m.prev == node)
      ensures Shape()
    {
      var n := |N|;
      forall i | 0 <= i < |Nodes|
        ensures Nodes[i].next == (if i + 1 < |Nodes| then Nodes[i + 1] else Nodes[0])
      {
        if i < q {
          assert Nodes[i] == N[i] && Nodes[i + 1] == N[i + 1];
        } else if i > q + 1 {
          assert Nodes[i] == N[i - 1];
        }
      }
      forall i | 0 <= i < |Nodes|
        ensures Nodes[i].prev == (if i == 0 then Nodes[|Nodes| - 1] else Nodes[i - 1])
      {
        if i <= q {
          assert Nodes[i] == N[i];
        } else if i > q + 1 {
          assert Nodes[i] == N[i - 1];
        }
      }
      assert Linked();
      forall i, j | 0 <= i < j < |Nodes|
        ensures Nodes[i] != Nodes[j]
      {
        if j <= q {
        } else if i > q + 1 {
          assert Nodes[i] == N[i - 1] && Nodes[j] == N[j - 1];
        } else if i <= q && j > q + 1 {
          assert Nodes[j] == N[j - 1];
        }
      }
    }

    /** The four link writes of addAfter: `node` between the live node `current`
        and its successor `next`. Every other link of a known node is kept, so all
        links of the cycle but the two rewritten still hold. */
    method Relink(current: DataNode<T>, node: DataNode<T>, next: DataNode<T>)
      requires Valid() && !Unlinked() && current in Nodes && next == current.next
      requires node !in Nodes && node !in Known
      modifies current, node, next
      ensures current.next == node && node.prev == current && node.next == next && next.prev == node
      ensures var q := IndexOf(Nodes, current);
        forall i {:trigger Nodes[i].next} :: 0 <= i < |Nodes| && i != q ==>
          Nodes[i].next == (if i + 1 < |Nodes| then Nodes[i + 1] else Nodes[0])
      ensures forall i {:trigger Nodes[i].prev} :: 0 <= i < |Nodes| && Nodes[i] != next ==>
        Nodes[i].prev == (if i == 0 then Nodes[|Nodes| - 1] else Nodes[i - 1])
      ensures forall m {:trigger m.next} {:trigger m.prev} :: m in Known ==>
        m.next != null && m.prev != null && (m.next in Known || m.next == node) && (m.prev in Known || m.prev == node)
    {
      ghost var q := IndexOf(Nodes, current);
      current.next := node;
      node.prev := current;
      node.next := next;
      next.prev := node;
      forall i | 0 <= i < |Nodes| && i != q
        ensures Nodes[i].next == (if i + 1 < |Nodes| then Nodes[i + 1] else Nodes[0])
      {
        assert old(Nodes[i].next) == (if i + 1 < |Nodes| then Nodes[i + 1] else Nodes[0]);
      }
      forall i | 0 <= i < |Nodes| && Nodes[i] != next
        ensures Nodes[i].prev == (if i == 0 then Nodes[|Nodes| - 1] else Nodes[i - 1])
      {
        assert old(Nodes[i].prev) == (if i == 0 then Nodes[|Nodes| - 1] else Nodes[i - 1]);
      }
      forall m {:trigger m.next} {:trigger m.prev} | m in Known
        ensures m.next != null && m.prev != null && (m.next in Known || m.next == node) && (m.prev in Known || m.prev == node)
      {
        if m != current && m != next {
          assert old(m.next) in Known && old(m.prev) in Known;
        }
      }
    }

    /** The linking half of addAfter: `node` goes in right after `current`. */
    method Splice(current: DataNode<T>, node: DataNode<T>)
      requires Valid() && !Unlinked() && current in Nodes
      requires node !in Nodes && node !in Known && node.next == null && node.prev == null
      modifies this`size, this`Nodes, this`Known, current, current.next, node
      ensures Valid()
      ensures var q := IndexOf(old(Nodes), current);
        Nodes == old(Nodes[..q + 1]) + [node] + old(Nodes[q + 1..])
      ensures Known == old(Known) + {node} && size == old(size) + 1
    {
      ghost var N, q := Nodes, IndexOf(Nodes, current);
      NeighboursAt(q);
      var next := current.next;
      Relink(current, node, next);
      size := size + 1;
      Nodes := N[..q + 1] + [node] + N[q + 1..];
      Known := Known + {node};
      SplicedShape(N, old(Known), q, node);
    }

    /** addAfter's insertion path: a new node holding `data` right after the live
        node `current`. */
    method InsertAfter(current: DataNode<T>, data: T)
      requires Valid() && !Unlinked() && current in Nodes
      modifies this, index, Nodes
      ensures Valid()
      ensures var at := IndexOf(old(Nodes), current) + 1;
        at < |Nodes| && Nodes == old(Nodes[..at]) + [Nodes[at]] + old(Nodes[at..]) && fresh(Nodes[at]) &&
        Contents() == old(Contents()[..at]) + [data] + old(Contents()[at..])
      ensures size == old(size) + 1 && modifyCount == old(modifyCount) + 1
      ensures Known >= old(Known) && head == old(head)
      ensures index == old(index) || fresh(index)
      ensures IndexGrown(old(index[..]), old(nextIndex), Nodes[IndexOf(old(Nodes), current) + 1])
    {
      ghost var q := IndexOf(Nodes, current);
      // recordOperatedCount comes last in the source, as in Add
      modifyCount := modifyCount + 1;
      var newNode := new DataNode(data);
      Splice(current, newNode);
      CheckIndex(newNode);
      ValuesInsert(old(Nodes), q + 1, newNode, Nodes);
    }

    /** addAfter: inserts `data` right after the node the lookup of specificID
        finds; appends when specificID is past the end or the lookup finds nothing
        (the source appends through the varargs `add`, with one value). */
    method AddAfter(specificID: int, data: T)
      requires Valid() && InsertableAt(specificID)
      modifies this, index, Nodes
      ensures Valid()
      ensures var at := old(InsertedAt(specificID));
        at < |Nodes| && Nodes == old(Nodes[..at]) + [Nodes[at]] + old(Nodes[at..]) && fresh(Nodes[at]) &&
        Contents() == old(Contents()[..at]) + [data] + old(Contents()[at..])
      ensures size == old(size) + 1 && modifyCount == old(modifyCount) + 1 && Known >= old(Known)
      ensures old(head) != null ==> head == old(head)
      ensures index == old(index) || fresh(index)
      ensures IndexGrown(old(index[..]), old(nextIndex), Nodes[old(InsertedAt(specificID))])
    {
      var current: DataNode?<T> := null;
      if specificID <= size - 1 {
        current := FindSpecificNode(Some(specificID));
      }
      InsertOrAppend(current, data);
    }

    /** addAfter once the lookup is done: after `current`, or at the end when
        there is no node to insert after. */
    method InsertOrAppend(current: DataNode?<T>, data: T)
      requires Valid() && (current == null || (current in Nodes && !Unlinked()))
      modifies this, index, Nodes
      ensures Valid()
      ensures var at := if current == null then |old(Nodes)| else IndexOf(old(Nodes), current) + 1;
        at < |Nodes| && Nodes == old(Nodes[..at]) + [Nodes[at]] + old(Nodes[at..]) && fresh(Nodes[at]) &&
        Contents() == old(Contents()[..at]) + [data] + old(Contents()[at..]) &&
        IndexGrown(old(index[..]), old(nextIndex), Nodes[at])
      ensures size == old(size) + 1 && modifyCount == old(modifyCount) + 1 && Known >= old(Known)
      ensures old(head) != null ==> head == old(head)
      ensures index == old(index) || fresh(index)
    {
      if current == null {
        ghost var N := Nodes;
        Add(data);
        assert N[..|N|] == N && N[|N|..] == [];
        ValuesInsert(N, |N|, Nodes[|N|], Nodes);
      } else {
        InsertAfter(current, data);
      }
    }

    /** addAfter at a live position of a list whose index only ever saw appends:
        the element lands right after the position the lookup reaches, which is
        that position itself unless an odd interval makes the lookup overreach. */
    method AddAfterPosition(specificID: int, data: T)
      requires Valid() && IndexSound()
      requires 0 <= specificID < |Nodes| && !Unlinked()
      modifies this, index, Nodes
      ensures Valid()
      ensures var t := old(Reached(specificID)) + 1;
        t <= |old(Contents())| && Contents() == old(Contents()[..t]) + [data] + old(Contents()[t..])
      ensures (interval == 1 || interval % 2 == 0) ==>
        Contents() == old(Contents()[..specificID + 1]) + [data] + old(Contents()[specificID + 1..])
      ensures head == old(head) && size == old(size) + 1 && modifyCount == old(modifyCount) + 1
    {
      InsertedAtPosition(specificID);
      AddAfter(specificID, data);
    }

    /** What adjustIndexAfter(position) writes over the populated slot holding
        `node`: the node's successor, or nothing when that successor is head or
        position is the last one. */
    function ShiftedSlot(node: DataNode<T>, position: int): (r: DataNode?<T>)
      reads this`size, this`head, node
    {
      if position == size - 1 then null
      else if node.next == head then null
      else node.next
    }

    /** The slots after adjustIndexAfter(position), from the slots `before`:
        from slot position / interval (rounded toward zero) up to the first
        empty one, each slot moves on as ShiftedSlot says, and the others keep
        their node. */
    ghost predicate Shifted(before: seq<DataNode?<T>>, position: int)
      reads this`size, this`head, this`index, index, set k | 0 <= k < |before| && before[k] != null :: before[k]
      requires interval >= 1
    {
      |before| == index.Length &&
      var from := JavaDiv(position, interval);
      forall k :: 0 <= k < index.Length ==>
        index[k] == (if 0 <= from && from <= k < FirstEmpty(before, from) then ShiftedSlot(before[k], position) else before[k])
    }

    /** adjustIndexAfter: nothing happens for a negative start slot; a slot's
        successor is read only when position is not the last one, and must not be
        null then. */
    method AdjustIndexAfter(position: int)
      requires interval >= 1
      requires position != size - 1 ==>
        forall k :: 0 <= k < index.Length && index[k] != null ==> index[k].next != null
      modifies index
      ensures Shifted(old(index[..]), position)
    {
      var next := JavaDiv(position, interval);
      if next < 0 {
        return;
      }
      ghost var from := next;
      while next < index.Length
        invariant from <= next && (from < next ==> next <= index.Length)
        invariant forall k :: from <= k < next ==> old(index[k]) != null
        invariant forall k :: 0 <= k < index.Length ==>
          index[k] == (if from <= k < next then ShiftedSlot(old(index[k]), position) else old(index[k]))
        decreases index.Length - next
      {
        var indexNode := index[next];
        if indexNode == null {
          break;
        }
        index[next] := ShiftedSlot(indexNode, position);
        next := next + 1;
      }
      if from < index.Length {
        FirstEmptyAt(old(index[..]), from, next);
      }
    }

    /** The two link writes that take the node between `prev` and `next` out of
        the cycle. Every other link of a known node is kept, and so are the
        removed node's own links. */
    method Bypass(prev: DataNode<T>, current: DataNode<T>, next: DataNode<T>)
      requires Valid() && !Unlinked() && current in Nodes && current != head
      requires prev == current.prev && next == current.next
      modifies prev, next
      ensures prev.next == next && next.prev == prev
      ensures current.next == next && current.prev == prev
      ensures forall i {:trigger Nodes[i].next} :: 0 <= i < |Nodes| && Nodes[i] != prev ==>
        Nodes[i].next == (if i + 1 < |Nodes| then Nodes[i + 1] else Nodes[0])
      ensures forall i {:trigger Nodes[i].prev} :: 0 <= i < |Nodes| && Nodes[i] != next ==>
        Nodes[i].prev == (if i == 0 then Nodes[|Nodes| - 1] else Nodes[i - 1])
      ensures KnownClosed()
    {
      ghost var q := IndexOf(Nodes, current);
      NeighboursAt(q);
      NeighboursAt(0);
      prev.next := next;
      next.prev := prev;
      forall i | 0 <= i < |Nodes| && Nodes[i] != prev
        ensures Nodes[i].next == (if i + 1 < |Nodes| then Nodes[i + 1] else Nodes[0])
      {
        assert old(Nodes[i].next) == (if i + 1 < |Nodes| then Nodes[i + 1] else Nodes[0]);
      }
      forall i | 0 <= i < |Nodes| && Nodes[i] != next
        ensures Nodes[i].prev == (if i == 0 then Nodes[|Nodes| - 1] else Nodes[i - 1])
      {
        assert old(Nodes[i].prev) == (if i == 0 then Nodes[|Nodes| - 1] else Nodes[i - 1]);
      }
      forall m {:trigger m.next} {:trigger m.prev} | m in Known
        ensures m.next != null && m.prev != null && m.next in Known && m.prev in Known
      {
        if m != prev && m != next {
          assert old(m.next) in Known && old(m.prev) in Known;
        }
      }
    }

    /** The node structure after Unlink: the links of the old cycle, with the one
        pair rewritten around the removed position q, close the new one. */
    lemma UnlinkedShape(N: seq<DataNode<T>>, q: int)
      requires 1 <= q < |N| && Nodes == N[..q] + N[q + 1..]
      requires forall i, j :: 0 <= i < j < |N| ==> N[i] != N[j]
      requires forall i :: 0 <= i < |N| ==> N[i] in Known
      requires interval >= 1 && size == |Nodes| && head == N[0] && KnownClosed()
      requires forall i {:trigger N[i].next} :: 0 <= i < |N| && i != q - 1 ==>
        N[i].next == (if i + 1 < |N| then N[i + 1] else N[0])
      requires forall i {:trigger N[i].prev} :: 0 <= i < |N| && N[i] != (if q + 1 < |N| then N[q + 1] else N[0]) ==>
        N[i].prev == (if i == 0 then N[|N| - 1] else N[i - 1])
      requires N[q - 1].next == (if q + 1 < |N| then N[q + 1] else N[0])
      requires (if q + 1 < |N| then N[q + 1] else N[0]).prev == N[q - 1]
      ensures Shape()
    {
      forall i | 0 <= i < |Nodes|
        ensures Nodes[i].next == (if i + 1 < |Nodes| then Nodes[i + 1] else Nodes[0])
      {
        if i < q - 1 {
          assert Nodes[i] == N[i] && Nodes[i + 1] == N[i + 1];
        } else if i >= q {
          assert Nodes[i] == N[i + 1];
        }
      }
      forall i | 0 <= i < |Nodes|
        ensures Nodes[i].prev == (if i == 0 then Nodes[|Nodes| - 1] else Nodes[i - 1])
      {
        if i < q {
          assert Nodes[i] == N[i];
        } else if i > q {
          assert Nodes[i] == N[i + 1] && Nodes[i - 1] == N[i];
        }
      }
      assert Linked();
      forall i, j | 0 <= i < j < |Nodes|
        ensures Nodes[i] != Nodes[j]
      {
        if j < q {
        } else if i >= q {
          assert Nodes[i] == N[i + 1] && Nodes[j] == N[j + 1];
        } else {
          assert Nodes[j] == N[j + 1];
        }
      }
    }

    /** Takes the live node `current`, which is not head, out of the cycle. */
    method Unlink(current: DataNode<T>)
      requires Valid() && !Unlinked() && current in Nodes && current != head
      modifies this`size, this`Nodes, current.prev, current.next
      ensures Valid() && Known == old(Known) && head == old(head)
      ensures var q := IndexOf(old(Nodes), current);
        Nodes == old(Nodes[..q]) + old(Nodes[q + 1..])
      ensures size == old(size) - 1
      ensures current.next == old(current.next) && current.prev == old(current.prev)
    {
      ghost var N, q := Nodes, IndexOf(Nodes, current);
      NeighboursAt(q);
      var prev := current.prev;
      var next := current.next;
      Bypass(prev, current, next);
      size := size - 1;
      Nodes := N[..q] + N[q + 1..];
      UnlinkedShape(N, q);
    }

    /** The linking half of removeLast on a non-empty list: the tail's
        predecessor and head close the cycle without it. */
    method DetachTail()
      requires Valid() && !Unlinked() && Nodes != []
      modifies this`size, this`Nodes, this`head, Nodes
      ensures Valid() && Known == old(Known)
      ensures Nodes == old(Nodes[..|Nodes| - 1]) && size == old(size) - 1
      ensures var t := old(Nodes[|Nodes| - 1]); t.next == old(t.next) && t.prev == old(t.prev)
      ensures old(size) >= 2 ==> head == old(head) && !Unlinked()
      ensures Nodes == [] ==> head == null
    {
      var tail := GetTailNode();
      if size == 1 {
        // the one node links to itself, so the two writes change nothing
        NeighboursAt(0);
        var tailPrev := tail.prev;
        tailPrev.next := head;
        head.prev := tailPrev;
        size := 0;
        Nodes := [];
        head := null;
      } else {
        // the writes of Unlink: tail.prev.next := head and head.prev := tail.prev
        IndexOfDistinct(Nodes, |Nodes| - 1);
        Unlink(tail);
      }
    }

    /** removeLast's call adjustIndexAfter(newSize - 1): as the position is the
        last one, the slots from (newSize - 1) / interval (rounded toward zero) up
        to the first empty one are emptied. */
    method TrimIndex()
      requires Valid()
      modifies index
      ensures Valid()
      ensures Cleared(old(index[..]), JavaDiv(size - 1, interval), index[..])
    {
      AdjustIndexAfter(size - 1);
    }

    /** removeLast, with the one correction that emptying the list also clears
        head: the last node leaves the cycle and the index is trimmed as
        adjustIndexAfter(newSize - 1) says. A no-op on the empty list. */
    method RemoveLast()
      requires Valid() && !Unlinked()
      modifies this`size, this`Nodes, this`head, this`modifyCount, index, Nodes
      ensures Valid() && index == old(index) && Known == old(Known)
      ensures old(size) == 0 ==>
        Nodes == old(Nodes) && modifyCount == old(modifyCount) && index[..] == old(index[..])
      ensures old(size) > 0 ==>
        Nodes == old(Nodes[..|Nodes| - 1]) && Contents() == old(Contents()[..|Contents()| - 1]) &&
        modifyCount == old(modifyCount) + 1
      ensures size == |Nodes| && nextIndex == old(nextIndex)
      ensures old(size) > 0 ==> var t := old(Nodes[|Nodes| - 1]); t.next == old(t.next) && t.prev == old(t.prev)
      ensures old(size) >= 2 ==> head == old(head) && !Unlinked()
      ensures Nodes == [] ==> head == null
      ensures old(size) > 0 ==> Cleared(old(index[..]), JavaDiv(old(size) - 2, interval), index[..])
      ensures old(IndexSound()) && (old(size) >= 2 || interval >= 2) ==> IndexConsistent()
    {
      var n := size;
      if n == 0 {
        return;
      }
      DropTail();
      modifyCount := modifyCount + 1;
    }

    /** removeLast on a non-empty list, but for the operation count. */
    method DropTail()
      requires Valid() && !Unlinked() && Nodes != []
      modifies this`size, this`Nodes, this`head, Nodes, index
      ensures Valid() && Known == old(Known)
      ensures Nodes == old(Nodes[..|Nodes| - 1]) && Contents() == old(Contents()[..|Contents()| - 1])
      ensures size == |Nodes| && size == old(size) - 1
      ensures var t := old(Nodes[|Nodes| - 1]); t.next == old(t.next) && t.prev == old(t.prev)
      ensures old(size) >= 2 ==> head == old(head) && !Unlinked()
      ensures Nodes == [] ==> head == null
      ensures Cleared(old(index[..]), JavaDiv(old(size) - 2, interval), index[..])
      ensures old(IndexSound()) && (old(size) >= 2 || interval >= 2) ==> IndexConsistent()
    {
      ghost var N := Nodes;
      ghost var oldSound := IndexSound();
      ghost var slots, filled := index[..], nextIndex;
      var n := size;
      DetachTail();
      TrimIndex();
      if oldSound && (n >= 2 || interval >= 2) {
        ConsistentAfterTruncate(slots, filled, N, interval, index[..]);
      }
      ValuesSlice(N, n - 1);
    }

    /** The slots a shift leaves behind: every populated one that was empty or
        known before moves to empty or to its successor, itself known. */
    lemma ShiftedKnown(before: seq<DataNode?<T>>, position: int)
      requires Shape() && 1 <= index.Length && 0 <= nextIndex <= index.Length
      requires forall k :: 0 <= k < |before| ==> before[k] == null || before[k] in Known
      requires Shifted(before, position)
      ensures SlotsKnown()
    {
      forall k | 0 <= k < index.Length
        ensures index[k] == null || index[k] in Known
      {
        var from := JavaDiv(position, interval);
        if 0 <= from && from <= k < FirstEmpty(before, from) {
          var m := before[k];
          assert m in Known && (index[k] == null || index[k] == m.next);
        }
      }
    }

    /** The links and slots of removeAt's unlinking path: the live node
        `current`, which is not head, leaves the cycle, then
        adjustIndexAfter(position) shifts the slots. */
    method UnlinkAndShift(current: DataNode<T>, position: int)
      requires Valid() && current in Nodes && current != head
      modifies this`size, this`Nodes, current.prev, current.next, index
      ensures Valid() && Known == old(Known) && head == old(head)
      ensures index == old(index) && nextIndex == old(nextIndex)
      ensures var q := IndexOf(old(Nodes), current);
        Nodes == old(Nodes[..q]) + old(Nodes[q + 1..])
      ensures size == old(size) - 1 && current.next == old(current.next) && current.prev == old(current.prev)
      ensures Shifted(old(index[..]), position)
    {
      ghost var slots := index[..];
      assert head in Known && !Unlinked();
      Unlink(current);
      assert !Unlinked();
      AdjustIndexAfter(position);
      ShiftedKnown(slots, position);
    }

    /** removeAt's unlinking path, counted as one modification. When the index
        is as appends left it and `position` is where `current` sits (neither
        head nor the last), the shifted index stays consistent. */
    method RemoveNode(current: DataNode<T>, position: int)
      requires Valid() && current in Nodes && current != head
      modifies this`size, this`Nodes, this`modifyCount, current.prev, current.next, index
      ensures Valid() && Known == old(Known) && head == old(head)
      ensures index == old(index) && nextIndex == old(nextIndex)
      ensures var q := IndexOf(old(Nodes), current);
        Nodes == old(Nodes[..q]) + old(Nodes[q + 1..]) &&
        Contents() == old(Contents()[..q]) + old(Contents()[q + 1..])
      ensures size == old(size) - 1 && modifyCount == old(modifyCount) + 1
      ensures current.next == old(current.next) && current.prev == old(current.prev)
      ensures Shifted(old(index[..]), position)
      ensures old(IndexSound()) && ShiftCovers(position, IndexOf(old(Nodes), current), old(size), interval) ==>
        IndexConsistent()
    {
      ghost var N, q := Nodes, IndexOf(Nodes, current);
      ghost var slots, filled := index[..], nextIndex;
      ghost var sound := IndexSound() && ShiftCovers(position, q, size, interval);
      if sound {
        NeighboursAt(q);
        assert 1 <= q && (q < |N| - 1 ==> N[q].next == N[q + 1]);
        assert forall i, j :: 0 <= i < j < |N| ==> N[i] != N[j];
        assert SoundSlots(slots, filled, N, interval) && filled <= |slots|;
      }
      // recordOperatedCount comes last in the source; nothing reads the count
      // in between
      modifyCount := modifyCount + 1;
      UnlinkAndShift(current, position);
      ValuesRemove(N, q, Nodes);
      if sound {
        ShiftedToSuccessors(N, q, position, slots, filled);
      }
    }

    /** removeAt's preconditions: the last position is removed by removeLast
        (which dereferences the links of an unlinked singleton); any other
        position is looked up safely and yields nothing, or a live node other
        than head (unlinking head leaves `head` on a removed node, unlinking a
        removed node corrupts the cycle). */
    ghost predicate RemovableAt(p: int)
      reads this`size, this`head, this`Nodes, this`Known, this`index, this`nextIndex, index, Nodes, Known
      requires Valid()
    {
      if p == size - 1 then !Unlinked()
      else LookupSafe(Some(p)) && (Located(Some(p)) == null || (Located(Some(p)) in Nodes && Located(Some(p)) != head))
    }

    /** The position whose element removeAt(p) takes out, if any. */
    ghost function RemovalPoint(p: int): (r: Option<int>)
      reads this`size, this`head, this`Nodes, this`Known, this`index, this`nextIndex, index, Nodes, Known
      requires Valid() && RemovableAt(p)
      ensures r.Some? ==> 0 <= r.value < |Nodes|
      ensures r.Some? && p != size - 1 ==> 1 <= r.value
    {
      if p == size - 1 then (if size == 0 then None else Some(size - 1))
      else if Located(Some(p)) == null then None
      else Some(IndexOf(Nodes, Located(Some(p))))
    }

    /** With a sound index removeAt(p) takes out the position the lookup
        reaches, for every live position but head's: p itself, or p + 1 where an
        odd interval makes the lookup overreach. */
    lemma RemovedAtPosition(p: int)
      requires Valid() && IndexSound()
      requires 1 <= p < |Nodes|
      ensures RemovableAt(p) && RemovalPoint(p) == Some(Reached(p))
      ensures (interval == 1 || interval % 2 == 0) ==> RemovalPoint(p) == Some(p)
    {
      LocatedAfterAppends(p);
      if p != size - 1 {
        IndexOfDistinct(Nodes, Reached(p));
      }
    }

    /** Where the lookup overreaches, position p is not the last of its slot's
        stretch, so removeAt's upkeep from slot p / interval still starts at or
        before the slot of the removed p + 1. */
    lemma OverreachLeavesRoom(p: int)
      requires interval >= 1 && Overreaches(p)
      ensures p % interval + 2 <= interval
    {
      DivStep(p, interval);
    }

    /** With a sound index, the node removeAt(p) unlinks below the last
        position sits where the index upkeep from slot p / interval covers it. */
    lemma RemovalCovered(p: int)
      requires Valid() && p != size - 1 && RemovableAt(p)
      ensures IndexSound() && 1 <= p < size ==>
        Located(Some(p)) != null && ShiftCovers(p, IndexOf(Nodes, Located(Some(p))), size, interval)
    {
      if IndexSound() && 1 <= p < size {
        RemovedAtPosition(p);
        if Overreaches(p) {
          OverreachLeavesRoom(p);
        }
      }
    }

    /** removeAt(0) on a list of two or more looks up head itself, which the
        source unlinks without moving `head`: excluded by RemovableAt. */
    lemma HeadNotRemovable()
      requires Valid() && IndexSound() && |Nodes| >= 2
      ensures !RemovableAt(0)
    {
      if interval == 1 {
        LocatedAfterAppends(0);
      }
    }

    /** After the node at position q (not head) has left the cycle in
        removeAt(p), the shift of a slot holding an old position t >= q gives the
        node at old position t + 1, which now sits at position t; or nothing when
        that is head or p became the last position. */
    lemma SlotSuccessor(N: seq<DataNode<T>>, q: int, p: int, t: int)
      requires Valid() && 1 <= q < |N| && Nodes == N[..q] + N[q + 1..]
      requires forall i, j :: 0 <= i < j < |N| ==> N[i] != N[j]
      requires q < |N| - 1 ==> N[q].next == N[q + 1]
      requires q == |N| - 1 ==> p == |N| - 2
      requires q <= t < |N|
      ensures ShiftedSlot(N[t], p) == (if p == |N| - 2 || t + 1 >= |N| then null else N[t + 1])
    {
      if t > q {
        assert N[t] == Nodes[t - 1];
        NeighboursAt(t - 1);
        if t < |Nodes| {
          assert Nodes[t] == N[t + 1];
        }
      }
    }

    /** After removeAt(p) took out the live position q other than head's, with
        slots as appends left them, each shifted slot holds its successor, which
        now sits at the slot's own position; so the index stays consistent. */
    lemma ShiftedToSuccessors(N: seq<DataNode<T>>, q: int, p: int, before: seq<DataNode?<T>>, filled: int)
      requires Valid() && 1 <= q < |N| && Nodes == N[..q] + N[q + 1..]
      requires forall i, j :: 0 <= i < j < |N| ==> N[i] != N[j]
      requires q < |N| - 1 ==> N[q].next == N[q + 1]
      requires ShiftCovers(p, q, |N|, interval)
      requires SoundSlots(before, filled, N, interval) && filled <= |before|
      requires Shifted(before, p)
      ensures IndexConsistent()
    {
      DivBounds(p, interval);
      var from := p / interval;
      var j := FirstEmpty(before, from);
      forall k | 0 <= k < index.Length
        ensures index[k] == (if from <= k < j then
                               (if p == |N| - 2 || (k + 1) * interval >= |N| then null else N[(k + 1) * interval])
                             else before[k])
      {
        if from <= k < j {
          ShiftedSlotHolds(N, q, p, before, filled, k);
        }
      }
      ConsistentAfterRemoval(before, filled, N, interval, p, q, index[..]);
    }

    /** One shifted slot k of ShiftedToSuccessors: it held the node at old
        position t >= q, and now holds that node's successor or nothing. */
    lemma ShiftedSlotHolds(N: seq<DataNode<T>>, q: int, p: int, before: seq<DataNode?<T>>, filled: int, k: int)
      requires Valid() && 1 <= q < |N| && Nodes == N[..q] + N[q + 1..]
      requires forall i, j :: 0 <= i < j < |N| ==> N[i] != N[j]
      requires q < |N| - 1 ==> N[q].next == N[q + 1]
      requires ShiftCovers(p, q, |N|, interval)
      requires SoundSlots(before, filled, N, interval) && filled <= |before|
      requires 0 <= p / interval <= k < |before| && before[k] != null
      ensures ShiftedSlot(before[k], p) ==
        (if p == |N| - 2 || (k + 1) * interval >= |N| then null else N[(k + 1) * interval])
    {
      SoundSlotAt(before, filled, N, interval, k);
      CoveredSlotEnd(p, q, |N|, interval, k);
      SlotSuccessor(N, q, p, (k + 1) * interval - 1);
    }

    /** removeAt below the last position: the node the lookup finds is unlinked
        and the slots from position / interval on are shifted; nothing happens
        when the lookup finds nothing. */
    method RemoveFound(position: int)
      requires Valid() && position != size - 1 && RemovableAt(position)
      modifies this`size, this`Nodes, this`modifyCount, index, Nodes
      ensures Valid() && index == old(index) && Known == old(Known) && nextIndex == old(nextIndex) && head == old(head)
      ensures var r := old(RemovalPoint(position));
        r.None? ==> Nodes == old(Nodes) && modifyCount == old(modifyCount) && index[..] == old(index[..])
      ensures var r := old(RemovalPoint(position));
        r.Some? ==>
          Nodes == old(Nodes[..r.value]) + old(Nodes[r.value + 1..]) &&
          Contents() == old(Contents()[..r.value]) + old(Contents()[r.value + 1..]) &&
          modifyCount == old(modifyCount) + 1 && Shifted(old(index[..]), position)
      ensures var r := old(RemovalPoint(position));
        r.Some? ==> var c := old(Nodes[r.value]); c.next == old(c.next) && c.prev == old(c.prev)
      ensures size == |Nodes|
      ensures old(IndexSound()) && 1 <= position < old(size) ==>
        IndexConsistent()
    {
      RemovalCovered(position);
      var current := FindSpecificNode(Some(position));
      if current == null {
        return;
      }
      RemoveNode(current, position);
    }

    /** removeAt: the last position goes through removeLast, any other through
        the lookup. */
    method RemoveAt(position: int)
      requires Valid() && RemovableAt(position)
      modifies this`size, this`Nodes, this`head, this`modifyCount, index, Nodes
      ensures Valid() && index == old(index) && Known == old(Known) && nextIndex == old(nextIndex)
      ensures var r := old(RemovalPoint(position));
        r.None? ==> Nodes == old(Nodes) && modifyCount == old(modifyCount) && index[..] == old(index[..])
      ensures var r := old(RemovalPoint(position));
        r.Some? ==>
          Nodes == old(Nodes[..r.value]) + old(Nodes[r.value + 1..]) &&
          Contents() == old(Contents()[..r.value]) + old(Contents()[r.value + 1..]) &&
          modifyCount == old(modifyCount) + 1
      ensures var r := old(RemovalPoint(position));
        r.Some? ==> var c := old(Nodes[r.value]); c.next == old(c.next) && c.prev == old(c.prev)
      ensures size == |Nodes| && (Nodes != [] ==> head == old(head)) && (Nodes == [] ==> head == null)
      ensures position == old(size) - 1 && old(size) > 0 ==>
        Cleared(old(index[..]), JavaDiv(old(size) - 2, interval), index[..])
      ensures position != old(size) - 1 && old(RemovalPoint(position)).Some? ==> Shifted(old(index[..]), position)
      ensures old(IndexSound()) && 1 <= position < old(size) ==>
        old(RemovalPoint(position)) == Some(old(Reached(position))) && IndexConsistent()
    {
      if IndexSound() && 1 <= position < size {
        RemovedAtPosition(position);
      }
      if size == position + 1 {
        ghost var N := Nodes;
        RemoveLast();
        if N != [] {
          assert N[|N| - 1 + 1..] == [];
        }
      } else {
        RemoveFound(position);
      }
    }

    /** One step of a walk from the node at its step i leads to the node at its
        step i + 1, and each step meets that node's element. */
    lemma WalkStep(i: nat, count: nat, clockwise: bool)
      requires Valid() && !Unlinked() && i + 1 < count && Nodes != []
      ensures var n := |Nodes|;
        (if clockwise then Nodes[Pos(i, n, clockwise)].next else Nodes[Pos(i, n, clockwise)].prev) ==
          Nodes[Pos(i + 1, n, clockwise)]
    {
      NeighboursAt(Pos(i, |Nodes|, clockwise));
      PosStep(i, |Nodes|, clockwise);
    }

    /** The loop the four traversals share: `time` visits from head, each
        followed by a step along `next` (clockwise) or `prev` and by the
        fail-fast check of the modification counter against its value at the
        start. `mutates(i, x)` says whether visit i, of element x, changes the
        list (which bumps the counter); the check then raises, here `failed`. */
    method Walk(time: int, clockwise: bool, mutates: (nat, T) -> bool) returns (visited: seq<T>, failed: bool)
      requires Valid()
      requires time <= 0 || (Nodes != [] && (time == 1 || !Unlinked() || mutates(0, Nodes[0].data)))
      modifies this`modifyCount
      ensures (visited, failed) == Delivered(Order(Contents(), if time > 0 then time else 0, clockwise), mutates, 0)
      ensures modifyCount == old(modifyCount) + (if failed then 1 else 0)
    {
      var node := head;
      var count := modifyCount;
      var left := time;
      visited, failed := [], false;
      ghost var steps: nat := if time > 0 then time else 0;
      ghost var order := Order(Contents(), steps, clockwise);
      var i: nat := 0;
      DeliveredFrom(order, mutates, 0, []);
      while left > 0
        invariant Valid() && Nodes == old(Nodes)
        invariant i <= steps && left == time - i && modifyCount == count
        invariant Unlinked() ==> i == 0 || i == steps
        invariant i < steps ==> node == Nodes[Pos(i, |Nodes|, clockwise)]
        invariant Delivered(order, mutates, 0) == After(visited, order, mutates, i)
      {
        if i + 1 < steps && !Unlinked() {
          WalkStep(i, steps, clockwise);
        }
        left := left - 1;
        var data := node.data;
        DeliveredFrom(order, mutates, i, visited);
        visited := visited + [data];
        node := if clockwise then node.next else node.prev;
        if mutates(i, data) {
          modifyCount := modifyCount + 1;
        }
        if count != modifyCount {
          failed := true;
          return;
        }
        i := i + 1;
      }
      DeliveredFrom(order, mutates, i, visited);
    }

    /** forEachNext: one round clockwise from head, in position order. */
    method ForEachNext(mutates: (nat, T) -> bool) returns (visited: seq<T>, failed: bool)
      requires Valid()
      modifies this`modifyCount
      ensures (visited, failed) == Delivered(Contents(), mutates, 0)
      ensures modifyCount == old(modifyCount) + (if failed then 1 else 0)
    {
      visited, failed := Walk(size, true, mutates);
      OrderClockwiseRound(Contents());
    }

    /** forEachPrev: one round counter-clockwise from head. */
    method ForEachPrev(mutates: (nat, T) -> bool) returns (visited: seq<T>, failed: bool)
      requires Valid()
      modifies this`modifyCount
      ensures (visited, failed) == Delivered(Order(Contents(), |Contents()|, false), mutates, 0)
      ensures modifyCount == old(modifyCount) + (if failed then 1 else 0)
    {
      visited, failed := Walk(size, false, mutates);
    }

    /** forEachNextIn: `time` visits clockwise from head, going round as often as
        needed. More than one visit of the one-node list whose links were never
        set, or any visit of the empty list, dereferences null. */
    method ForEachNextIn(time: int, mutates: (nat, T) -> bool) returns (visited: seq<T>, failed: bool)
      requires Valid() && (time <= 0 || (Nodes != [] && (time == 1 || !Unlinked() || mutates(0, Nodes[0].data))))
      modifies this`modifyCount
      ensures (visited, failed) == Delivered(Order(Contents(), if time > 0 then time else 0, true), mutates, 0)
      ensures modifyCount == old(modifyCount) + (if failed then 1 else 0)
    {
      visited, failed := Walk(time, true, mutates);
    }

    /** forEachPrevIn: `time` visits counter-clockwise from head, with the same
        null dereferences as forEachNextIn. */
    method ForEachPrevIn(time: int, mutates: (nat, T) -> bool) returns (visited: seq<T>, failed: bool)
      requires Valid() && (time <= 0 || (Nodes != [] && (time == 1 || !Unlinked() || mutates(0, Nodes[0].data))))
      modifies this`modifyCount
      ensures (visited, failed) == Delivered(Order(Contents(), if time > 0 then time else 0, false), mutates, 0)
      ensures modifyCount == old(modifyCount) + (if failed then 1 else 0)
    {
      visited, failed := Walk(time, false, mutates);
    }
  }
}
