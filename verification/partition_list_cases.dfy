/** The table-driven cases for `remove` and `swap`: each builds a list of
    partitions that differ only in their minimum timestamp, applies the
    operation, states the whole resulting list (count, head, tail and
    links) and renders it afterwards. */
module PartitionListCases {
  import opened PartitionList

  /** A partition that only sets its minimum timestamp. */
  function Fake(minT: int): Partition
  {
    Partition(minT, 0, 0, false)
  }

  method RemoveFromEmpty() returns (l: List, err: Outcome)
    ensures l.Valid() && err == NotFound
    ensures l.numPartitions == 0 && l.head == null && l.tail == null
  {
    l := new List([]);
    err := l.Remove(Fake(0));
    var count, _ := l.String();
    assert count == 0;
  }

  method RemoveHead() returns (l: List, err: Outcome)
    ensures l.Valid() && err == Ok && l.numPartitions == 1
    ensures l.head != null && l.head == l.tail
    ensures l.head.val == Fake(2) && l.head.next == null
  {
    l := new List([Fake(1), Fake(2)]);
    var second := l.tail;
    assert IndexOf([Fake(1), Fake(2)], Fake(1)) == 0;
    err := l.Remove(Fake(1));
    assert l.head == second && l.Contents[0] == Fake(2);
    var count, _ := l.String();
    assert count == 1;
  }

  method RemoveTail() returns (l: List, err: Outcome)
    ensures l.Valid() && err == Ok && l.numPartitions == 1
    ensures l.head != null && l.head == l.tail
    ensures l.head.val == Fake(1) && l.head.next == null
  {
    l := new List([Fake(1), Fake(2)]);
    var first := l.head;
    assert IndexOf([Fake(1), Fake(2)], Fake(2)) == 1;
    err := l.Remove(Fake(2));
    assert l.head == first && l.Contents[0] == Fake(1);
    var count, _ := l.String();
    assert count == 1;
  }

  method RemoveMiddle() returns (l: List, err: Outcome)
    ensures l.Valid() && err == Ok && l.numPartitions == 2
    ensures l.head != null && l.tail != null && l.head.next == l.tail
    ensures l.head.val == Fake(1) && l.tail.val == Fake(3) && l.tail.next == null
  {
    l := new List([Fake(1), Fake(2), Fake(3)]);
    var third := l.tail;
    assert IndexOf([Fake(1), Fake(2), Fake(3)], Fake(2)) == 1;
    err := l.Remove(Fake(2));
    assert l.nodes[1] == third && l.tail == third;
    assert l.Contents[0] == Fake(1) && l.Contents[1] == Fake(3);
    var count, _ := l.String();
    assert count == 2;
  }

  method RemoveMissing() returns (l: List, err: Outcome)
    ensures l.Valid() && err == NotFound && l.numPartitions == 2
    ensures l.head != null && l.tail != null && l.head.next == l.tail
    ensures l.head.val == Fake(1) && l.tail.val == Fake(2) && l.tail.next == null
  {
    l := new List([Fake(1), Fake(2)]);
    err := l.Remove(Fake(3));
    assert l.nodes[1] == l.tail;
    assert l.Contents[0] == Fake(1) && l.Contents[1] == Fake(2);
    var count, _ := l.String();
    assert count == 2;
  }

  method SwapInEmpty() returns (l: List, err: Outcome)
    ensures l.Valid() && err == NotFound
    ensures l.numPartitions == 0 && l.head == null && l.tail == null
  {
    l := new List([]);
    err := l.Swap(Fake(0), Fake(0));
    var count, _ := l.String();
    assert count == 0;
  }

  method SwapHead() returns (l: List, err: Outcome)
    ensures l.Valid() && err == Ok && l.numPartitions == 2
    ensures l.head != null && l.tail != null && l.head.next == l.tail
    ensures l.head.val == Fake(100) && l.tail.val == Fake(2) && l.tail.next == null
  {
    l := new List([Fake(1), Fake(2)]);
    err := l.Swap(Fake(1), Fake(100));
    assert l.nodes[1] == l.tail;
    assert l.Contents[0] == Fake(100) && l.Contents[1] == Fake(2);
    var count, _ := l.String();
    assert count == 2;
  }

  method SwapTail() returns (l: List, err: Outcome)
    ensures l.Valid() && err == Ok && l.numPartitions == 2
    ensures l.head != null && l.tail != null && l.head.next == l.tail
    ensures l.head.val == Fake(1) && l.tail.val == Fake(100) && l.tail.next == null
  {
    l := new List([Fake(1), Fake(2)]);
    err := l.Swap(Fake(2), Fake(100));
    assert l.nodes[1] == l.tail;
    assert l.Contents[0] == Fake(1) && l.Contents[1] == Fake(100);
    var count, _ := l.String();
    assert count == 2;
  }

  method SwapMiddle() returns (l: List, err: Outcome)
    ensures l.Valid() && err == Ok && l.numPartitions == 3
    ensures l.head != null && l.head.next != null && l.head.next.next == l.tail
    ensures l.head.val == Fake(1) && l.head.next.val == Fake(100)
    ensures l.tail != null && l.tail.val == Fake(3) && l.tail.next == null
  {
    l := new List([Fake(1), Fake(2), Fake(3)]);
    err := l.Swap(Fake(2), Fake(100));
    assert l.nodes[1].next == l.nodes[2] == l.tail;
    assert l.Contents[0] == Fake(1) && l.Contents[1] == Fake(100) && l.Contents[2] == Fake(3);
    var count, _ := l.String();
    assert count == 3;
  }

  method SwapMissing() returns (l: List, err: Outcome)
    ensures l.Valid() && err == NotFound && l.numPartitions == 2
    ensures l.head != null && l.tail != null && l.head.next == l.tail
    ensures l.head.val == Fake(1) && l.tail.val == Fake(2) && l.tail.next == null
  {
    l := new List([Fake(1), Fake(2)]);
    err := l.Swap(Fake(100), Fake(0));
    assert l.nodes[1] == l.tail;
    assert l.Contents[0] == Fake(1) && l.Contents[1] == Fake(2);
    var count, _ := l.String();
    assert count == 2;
  }
}
