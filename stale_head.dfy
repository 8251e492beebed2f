/** removeLast and the static add of CircleNode.java exactly as written, on
    values: nodes are numbered, their links are optional numbers, and head and
    the size counter are kept as the source keeps them. The index plays no
    part here and is left out. This is where the class model's corrected
    removeLast differs from the code: removing the last element of a
    one-element list leaves `head` on the removed node. */
module StaleHead {
  import opened CircleNodes

  datatype RawNode<T> = RawNode(data: T, next: Option<nat>, prev: Option<nat>)

  datatype RawRing<T> = RawRing(nodes: map<nat, RawNode<T>>, head: Option<nat>, size: int)

  /** The list a constructor creates. */
  function RawEmpty<T>(): (r: RawRing<T>)
    ensures r.head.None? && r.size == 0
  {
    RawRing(map[], None, 0)
  }

  /** Node `id` with its `next` link set. */
  function SetNext<T>(r: RawRing<T>, id: nat, to: nat): (s: RawRing<T>)
    requires id in r.nodes
    ensures s.nodes.Keys == r.nodes.Keys && s.head == r.head && s.size == r.size
    ensures s.nodes[id].next == Some(to) && s.nodes[id].prev == r.nodes[id].prev
  {
    r.(nodes := r.nodes[id := r.nodes[id].(next := Some(to))])
  }

  /** Node `id` with its `prev` link set. */
  function SetPrev<T>(r: RawRing<T>, id: nat, to: nat): (s: RawRing<T>)
    requires id in r.nodes
    ensures s.nodes.Keys == r.nodes.Keys && s.head == r.head && s.size == r.size
    ensures s.nodes[id].prev == Some(to) && s.nodes[id].next == r.nodes[id].next
  {
    r.(nodes := r.nodes[id := r.nodes[id].(prev := Some(to))])
  }

  /** The static `add`, write by write: a new node `id` holding `data` goes in
      just before head. The writes that would dereference a null link (a
      missing tail in a list whose head has a `next`) are excluded. */
  function RawAdd<T>(r: RawRing<T>, id: nat, data: T): (s: RawRing<T>)
    requires id !in r.nodes && (r.head.Some? ==> r.head.value in r.nodes)
    requires r.head.Some? && r.nodes[r.head.value].next.Some? ==>
      r.nodes[r.head.value].prev.Some? && r.nodes[r.head.value].prev.value in r.nodes
    ensures s.nodes.Keys == r.nodes.Keys + {id} && s.size == r.size + 1
    ensures r.head.Some? ==> s.head == r.head
    ensures r.head.None? ==> s.head == Some(id)
  {
    var added := r.(nodes := r.nodes[id := RawNode(data, None, None)]);
    var grown :=
      if r.head.None? then
        added.(head := Some(id))
      else
        var h := r.head.value;
        if r.nodes[h].next.None? then
          // head.next = next; head.prev = next; next.prev = head
          var s1 := SetPrev(SetPrev(SetNext(added, h, id), h, id), id, h);
          // last = next; last.next = head; head.prev = last
          SetPrev(SetNext(s1, id, h), h, id)
        else
          var last := r.nodes[h].prev.value;
          // last.next = next; next.prev = last; next.next = head
          var s1 := SetNext(SetPrev(SetNext(added, last, id), id, last), id, h);
          // last = next; last.next = head; head.prev = last
          SetPrev(SetNext(s1, id, h), h, id);
    grown.(size := r.size + 1)
  }

  /** removeLast, write by write, without its index upkeep: a no-op on the
      empty list; otherwise the tail's predecessor and head are linked to each
      other and the size drops. Nothing clears `head`. */
  function RawRemoveLast<T>(r: RawRing<T>): (s: RawRing<T>)
    requires r.size != 0 ==>
      r.head.Some? && r.head.value in r.nodes &&
      r.nodes[r.head.value].prev.Some? && r.nodes[r.head.value].prev.value in r.nodes &&
      r.nodes[r.nodes[r.head.value].prev.value].prev.Some? &&
      r.nodes[r.nodes[r.head.value].prev.value].prev.value in r.nodes
    ensures s.head == r.head && s.nodes.Keys == r.nodes.Keys
    ensures s.size == (if r.size == 0 then 0 else r.size - 1)
  {
    if r.size == 0 then r
    else
      var h := r.head.value;
      var tail := r.nodes[h].prev.value;
      var tailPrev := r.nodes[tail].prev.value;
      var s1 := SetPrev(SetNext(r, tailPrev, h), h, tailPrev);
      s1.(size := r.size - 1)
  }

  /** The elements a clockwise traversal of `count` steps from node `at` meets
      (forEachNextIn); it stops early where the source would dereference null. */
  function Walked<T>(r: RawRing<T>, at: Option<nat>, count: nat): (xs: seq<T>)
    ensures |xs| <= count
    decreases count
  {
    if count == 0 || at.None? || at.value !in r.nodes then []
    else [r.nodes[at.value].data] + Walked(r, r.nodes[at.value].next, count - 1)
  }

  /** What forEachNext shows: `size` steps from head. */
  function Visible<T>(r: RawRing<T>): (xs: seq<T>)
    ensures |xs| <= if r.size > 0 then r.size else 0
  {
    Walked(r, r.head, if r.size > 0 then r.size else 0)
  }

  /** Appending a, b, removing the last element twice and appending c shows
      [a]: the emptied list kept `head` on a's node, so c went in behind it
      and the removed a came back, while c is never reached. */
  lemma StaleHeadResurrects<T>(a: T, b: T, c: T)
    ensures Visible(RawAdd(RawAdd(RawEmpty(), 0, a), 1, b)) == [a, b]
    ensures RawRemoveLast(RawRemoveLast(TwoLinked(a, b))) == Emptied(a, b)
    ensures Emptied(a, b).size == 0 && Visible(RawAdd(Emptied(a, b), 2, c)) == [a]
  {
    AppendTwo(a, b);
    TwoLinkedShows(a, b);
    RemoveTwice(a, b);
    EmptiedThenAppendShows(a, b, c);
  }

  /** A walk of TwoLinked meets a, then b. */
  lemma TwoLinkedShows<T>(a: T, b: T)
    ensures Visible(TwoLinked(a, b)) == [a, b]
  {
    assert Visible(TwoLinked(a, b)) == [a] + Walked(TwoLinked(a, b), Some(1), 1);
  }

  /** Appending c to Emptied: head stays on a's node, which now links to c's,
      and with size 1 the walk meets only a. */
  lemma EmptiedThenAppendShows<T>(a: T, b: T, c: T)
    ensures Visible(RawAdd(Emptied(a, b), 2, c)) == [a]
  {
    var again := RawAdd(Emptied(a, b), 2, c);
    assert again.nodes[0] == RawNode(a, Some(2), Some(2));
    assert Visible(again) == [a] + Walked(again, Some(2), 0);
  }

  /** a's node and b's node linked both ways, head on a's. */
  function TwoLinked<T>(a: T, b: T): RawRing<T>
  {
    RawRing(map[0 := RawNode(a, Some(1), Some(1)), 1 := RawNode(b, Some(0), Some(0))], Some(0), 2)
  }

  /** What two removals leave of TwoLinked: a's node linked to itself, b's
      node left pointing at it, head still on a's, size 0. */
  function Emptied<T>(a: T, b: T): RawRing<T>
  {
    RawRing(map[0 := RawNode(a, Some(0), Some(0)), 1 := RawNode(b, Some(0), Some(0))], Some(0), 0)
  }

  /** a and b appended to the empty list link to each other both ways. */
  lemma AppendTwo<T>(a: T, b: T)
    ensures RawAdd(RawAdd(RawEmpty(), 0, a), 1, b) == TwoLinked(a, b)
  {
    var one := RawAdd(RawEmpty(), 0, a);
    assert one == RawRing(map[0 := RawNode(a, None, None)], Some(0), 1);
  }

  /** Removing the last element twice from TwoLinked. */
  lemma RemoveTwice<T>(a: T, b: T)
    ensures RawRemoveLast(RawRemoveLast(TwoLinked(a, b))) == Emptied(a, b)
  {
    var shrunk := RawRemoveLast(TwoLinked(a, b));
    assert shrunk == RawRing(map[0 := RawNode(a, Some(0), Some(0)), 1 := RawNode(b, Some(0), Some(0))], Some(0), 1);
  }
}
