/** The time-partition list of the storage engine: a singly linked list of
    partitions with a head, a tail and a partition count, and the `remove`,
    `swap` and `String` operations on it.

    The specification functions over `seq<Partition>` (IndexOf, RemoveFirst,
    Replace) say what the list's contents become; the class `List` holds the
    linked nodes and its methods are proved against those functions. */
module PartitionList {

  /** The abstraction of one partition that the list sees: its time bounds,
      its point count and whether it accepts writes. Two partitions match
      when all of these are equal. */
  datatype Partition = Partition(minT: int, maxT: int, numPoints: int, isActive: bool)

  /** The outcome of `remove` and `swap`: success, or the error returned when
      no node holds the target (which is always the case on an empty list). */
  datatype Outcome = Ok | NotFound

  /** The per-node time bounds that the diagnostic rendering reports. */
  datatype Bounds = Bounds(minT: int, maxT: int)

  // ---------------------------------------------------------------------
  // Specification over sequences of partitions
  // ---------------------------------------------------------------------

  /** The position of the first partition equal to `x`, or -1 if none is. */
  function IndexOf(ps: seq<Partition>, x: Partition): (r: int)
    ensures -1 <= r < |ps|
    ensures r == -1 <==> x !in ps
    ensures 0 <= r ==> ps[r] == x && x !in ps[..r]
  {
    if ps == [] then -1
    else if ps[0] == x then 0
    else
      var k := IndexOf(ps[1..], x);
      assert ps[1..][..if k < 0 then 0 else k] == ps[1..1 + (if k < 0 then 0 else k)];
      if k == -1 then -1 else k + 1
  }

  /** A position holding `x` with no earlier `x` is the one IndexOf finds. */
  lemma IndexOfFirst(ps: seq<Partition>, x: Partition, i: nat)
    requires i < |ps| && ps[i] == x && forall j :: 0 <= j < i ==> ps[j] != x
    ensures IndexOf(ps, x) == i
  {
  }

  /** The contents after a successful remove: the first partition equal to
      `x` is taken out and every other partition keeps its order. */
  function RemoveFirst(ps: seq<Partition>, x: Partition): (r: seq<Partition>)
    requires x in ps
    ensures |r| == |ps| - 1
    ensures forall k :: 0 <= k < IndexOf(ps, x) ==> r[k] == ps[k]
    ensures forall k :: IndexOf(ps, x) <= k < |r| ==> r[k] == ps[k + 1]
  {
    var i := IndexOf(ps, x);
    ps[..i] + ps[i + 1..]
  }

  /** The contents after a successful swap: the first partition equal to
      `old_` is replaced by `new_`, at the same position. */
  function Replace(ps: seq<Partition>, old_: Partition, new_: Partition): (r: seq<Partition>)
    requires old_ in ps
    ensures |r| == |ps| && r[IndexOf(ps, old_)] == new_
    ensures forall k :: 0 <= k < |ps| && k != IndexOf(ps, old_) ==> r[k] == ps[k]
  {
    ps[IndexOf(ps, old_) := new_]
  }

  /** The ordering invariant of the storage engine: minimum timestamps are
      non-decreasing from head to tail. */
  ghost predicate Ordered(ps: seq<Partition>)
  {
    forall i, j :: 0 <= i < j < |ps| ==> ps[i].minT <= ps[j].minT
  }

  /** Removing a partition takes exactly that one partition out. */
  lemma RemoveFirstIsMultisetDifference(ps: seq<Partition>, x: Partition)
    requires x in ps
    ensures |RemoveFirst(ps, x)| == |ps| - 1
    ensures multiset(RemoveFirst(ps, x)) == multiset(ps) - multiset{x}
  {
    var i := IndexOf(ps, x);
    assert ps == ps[..i] + [ps[i]] + ps[i + 1..];
  }

  /** Removing a partition keeps the list ordered by minimum timestamp. */
  lemma RemoveFirstKeepsOrder(ps: seq<Partition>, x: Partition)
    requires x in ps && Ordered(ps)
    ensures Ordered(RemoveFirst(ps, x))
  {
  }

  /** Swapping replaces exactly one partition: the length is kept, the first
      match now holds `new_`, every other position is untouched (later copies
      of `old_` included), and one copy of `old_` is traded for `new_`. */
  lemma ReplaceChangesOnePosition(ps: seq<Partition>, old_: Partition, new_: Partition)
    requires old_ in ps
    ensures |Replace(ps, old_, new_)| == |ps|
    ensures Replace(ps, old_, new_)[IndexOf(ps, old_)] == new_
    ensures forall k :: 0 <= k < |ps| && k != IndexOf(ps, old_) ==> Replace(ps, old_, new_)[k] == ps[k]
    ensures multiset(Replace(ps, old_, new_)) == multiset(ps) - multiset{old_} + multiset{new_}
  {
    UpdateMultiset(ps, IndexOf(ps, old_), new_);
  }

  /** Overwriting position `i` trades one copy of `ps[i]` for `v`. */
  lemma UpdateMultiset(ps: seq<Partition>, i: nat, v: Partition)
    requires i < |ps|
    ensures multiset(ps[i := v]) == multiset(ps) - multiset{ps[i]} + multiset{v}
  {
    var front, back := ps[..i], ps[i + 1..];
    assert ps == front + [ps[i]] + back;
    assert ps[i := v] == front + [v] + back;
  }

  /** Swapping back undoes a swap, provided the replacement did not already
      occur in the list. */
  lemma {:induction false} ReplaceRoundTrip(ps: seq<Partition>, old_: Partition, new_: Partition)
    requires old_ in ps && new_ !in ps
    ensures new_ in Replace(ps, old_, new_)
    ensures Replace(Replace(ps, old_, new_), new_, old_) == ps
  {
    var i := IndexOf(ps, old_);
    var q := Replace(ps, old_, new_);
    assert q[i] == new_;
    assert q[..i] == ps[..i];
    assert IndexOf(q, new_) == i;
    assert q[i := old_] == ps;
  }

  /** Swap does not check ordering: replacing the head of [1, 2] with a
      partition starting at 100 succeeds and leaves the list out of order. */
  lemma ReplaceMayBreakOrder()
    ensures var p1 := Partition(1, 0, 0, false);
            var p2 := Partition(2, 0, 0, false);
            var p100 := Partition(100, 0, 0, false);
            Ordered([p1, p2]) && Replace([p1, p2], p1, p100) == [p100, p2] &&
            !Ordered(Replace([p1, p2], p1, p100))
  {
    var p1 := Partition(1, 0, 0, false);
    var p2 := Partition(2, 0, 0, false);
    var p100 := Partition(100, 0, 0, false);
    assert IndexOf([p1, p2], p1) == 0;
    assert Replace([p1, p2], p1, p100)[0].minT > Replace([p1, p2], p1, p100)[1].minT;
  }

  /** A compaction swap, whose replacement starts at the same timestamp as the
      partition it replaces, keeps the list ordered. */
  lemma ReplaceSameStartKeepsOrder(ps: seq<Partition>, old_: Partition, new_: Partition)
    requires old_ in ps && Ordered(ps) && new_.minT == old_.minT
    ensures Ordered(Replace(ps, old_, new_))
  {
  }

  // ---------------------------------------------------------------------
  // The linked list
  // ---------------------------------------------------------------------

  /** A list node: one partition and the link to the next node. */
  class Node {
    var val: Partition
    var next: Node?

    constructor (val: Partition, next: Node?)
      ensures this.val == val && this.next == next
    {
      this.val := val;
      this.next := next;
    }
  }

  class List {
    var numPartitions: int
    var head: Node?
    var tail: Node?

    /** The partitions held by the list, from head to tail. */
    ghost var Contents: seq<Partition>
    /** The nodes reachable from `head`, in order. */
    ghost var nodes: seq<Node>
    ghost var Repr: set<object>

    /** The list invariant: the count is the number of nodes, `head` and
        `tail` are null exactly when the list is empty and otherwise are the
        first and last node, each node links to the one after it, the last
        one to nothing, and the nodes hold Contents in order. */
    ghost predicate Valid()
      reads this, Repr
    {
      this in Repr &&
      (forall k :: 0 <= k < |nodes| ==> nodes[k] in Repr) &&
      (forall k, m :: 0 <= k < m < |nodes| ==> nodes[k] != nodes[m]) &&
      numPartitions == |nodes| == |Contents| &&
      (|nodes| == 0 ==> head == null && tail == null) &&
      (|nodes| > 0 ==> head == nodes[0] && tail == nodes[|nodes| - 1]) &&
      (forall k {:trigger nodes[k].val} :: 0 <= k < |nodes| ==> nodes[k].val == Contents[k]) &&
      (forall k {:trigger nodes[k].next} :: 0 <= k < |nodes| ==>
        nodes[k].next == if k + 1 < |nodes| then nodes[k + 1] else null)
    }

    /** Builds the list holding `ps` in order, as the tests do by linking
        fresh nodes; `ps == []` gives the zero-valued empty list. */
    constructor (ps: seq<Partition>)
      ensures Valid() && fresh(Repr)
      ensures Contents == ps
    {
      var n: Node? := null;
      var last: Node? := null;
      ghost var ns: seq<Node> := [];
      ghost var fr: set<object> := {};
      var k := |ps|;
      while k > 0
        invariant 0 <= k <= |ps| && |ns| == |ps| - k
        invariant forall j {:trigger ns[j].val} :: 0 <= j < |ns| ==> ns[j].val == ps[k + j]
        invariant forall j {:trigger ns[j].next} :: 0 <= j < |ns| ==>
          ns[j].next == if j + 1 < |ns| then ns[j + 1] else null
        invariant forall j :: 0 <= j < |ns| ==> ns[j] in fr
        invariant forall j, m :: 0 <= j < m < |ns| ==> ns[j] != ns[m]
        invariant n == if ns == [] then null else ns[0]
        invariant last == if ns == [] then null else ns[|ns| - 1]
        invariant forall o :: o in fr ==> fresh(o)
      {
        k := k - 1;
        ghost var rest := ns;
        var succ := n;
        n := new Node(ps[k], succ);
        if k == |ps| - 1 { last := n; }
        ns := [n] + rest;
        fr := fr + {n};
        forall j | 0 <= j < |ns|
          ensures ns[j].val == ps[k + j]
          ensures ns[j].next == if j + 1 < |ns| then ns[j + 1] else null
        {
          if j > 0 {
            assert ns[j] == rest[j - 1];
            assert rest[j - 1].val == ps[k + j];
            assert rest[j - 1].next == if j < |rest| then rest[j] else null;
          }
        }
      }
      numPartitions := |ps|;
      head := n;
      tail := last;
      Contents := ps;
      nodes := ns;
      Repr := {this} + fr;
    }

    /** Walks the links from `head` to the first node whose partition equals
        `x`, as remove and swap do; returns that node and its predecessor,
        or a null node when no partition equals `x`. */
    method Find(x: Partition) returns (prev: Node?, cur: Node?, ghost i: int)
      requires Valid()
      ensures cur == null <==> x !in Contents
      ensures cur != null ==>
        i == IndexOf(Contents, x) && cur == nodes[i] &&
        prev == if i == 0 then null else nodes[i - 1]
    {
      prev, cur, i := null, head, 0;
      while cur != null && cur.val != x
        invariant 0 <= i <= |nodes|
        invariant cur == if i < |nodes| then nodes[i] else null
        invariant prev == if i == 0 then null else nodes[i - 1]
        invariant forall j :: 0 <= j < i ==> Contents[j] != x
        decreases |nodes| - i
      {
        prev := cur;
        cur := cur.next;
        i := i + 1;
      }
      if cur != null {
        IndexOfFirst(Contents, x, i);
      }
    }

    /** Unlinks the head node: the head advances to its successor, and a
        list that held one node becomes empty. */
    method UnlinkHead()
      requires Valid() && |nodes| > 0
      modifies this
      ensures Valid() && Repr == old(Repr)
      ensures nodes == old(nodes[1..]) && Contents == old(Contents[1..])
    {
      head := head.next;
      if head == null {
        tail := null;
      }
      numPartitions := numPartitions - 1;
      nodes := nodes[1..];
      Contents := Contents[1..];
    }

    /** Unlinks `cur`, the node at position `i` after `prev`: `prev` is
        linked to `cur`'s successor and, when `cur` was the tail, becomes the
        tail with its link cleared. */
    method UnlinkAfter(prev: Node, cur: Node, ghost i: nat)
      requires Valid() && 0 < i < |nodes| && prev == nodes[i - 1] && cur == nodes[i]
      modifies this, prev
      ensures Valid() && Repr == old(Repr)
      ensures nodes == old(nodes[..i] + nodes[i + 1..])
      ensures Contents == old(Contents[..i] + Contents[i + 1..])
    {
      ghost var ps, ns := Contents, nodes;
      var next := cur.next;
      if next == null {
        // removing the tail node
        prev.next := null;
        tail := prev;
      } else {
        // removing a middle node
        prev.next := next;
      }
      numPartitions := numPartitions - 1;
      nodes := ns[..i] + ns[i + 1..];
      Contents := ps[..i] + ps[i + 1..];
      forall k | 0 <= k < |nodes|
        ensures nodes[k].val == Contents[k]
        ensures nodes[k].next == if k + 1 < |nodes| then nodes[k + 1] else null
      {
        var k' := if k < i then k else k + 1;
        assert nodes[k] == ns[k'] && Contents[k] == ps[k'];
        assert old(ns[k'].val) == ps[k'];
        if k' != i - 1 {
          assert ns[k'] != prev;
          assert old(ns[k'].next) == if k' + 1 < |ns| then ns[k' + 1] else null;
        }
      }
    }

    /** Removes the first node whose partition equals `target`. On success
        the count drops by one and the other nodes keep their order and
        payloads. When no node matches, including on an empty list, the
        result is NotFound and nothing changes. */
    method Remove(target: Partition) returns (err: Outcome)
      requires Valid()
      modifies Repr
      ensures Valid() && Repr == old(Repr)
      ensures err == NotFound <==> target !in old(Contents)
      ensures err == NotFound ==>
        nodes == old(nodes) && head == old(head) && tail == old(tail) &&
        numPartitions == old(numPartitions) && Contents == old(Contents)
      ensures err == Ok ==>
        var i := IndexOf(old(Contents), target);
        nodes == old(nodes[..i] + nodes[i + 1..]) &&
        numPartitions == old(numPartitions) - 1 &&
        Contents == RemoveFirst(old(Contents), target)
    {
      if numPartitions <= 0 {
        return NotFound;
      }
      var prev, cur, i := Find(target);
      if cur == null {
        return NotFound;
      }
      ghost var ps := Contents;
      Unlink(prev, cur, i);
      assert Contents == RemoveFirst(ps, target);
      return Ok;
    }

    /** Unlinks `cur`, the node at position `i`, whose predecessor is
        `prev` (null for the head node). */
    method Unlink(prev: Node?, cur: Node, ghost i: nat)
      requires Valid() && i < |nodes| && cur == nodes[i]
      requires prev == if i == 0 then null else nodes[i - 1]
      modifies Repr
      ensures Valid() && Repr == old(Repr)
      ensures nodes == old(nodes[..i] + nodes[i + 1..])
      ensures Contents == old(Contents[..i] + Contents[i + 1..])
      ensures numPartitions == old(numPartitions) - 1
    {
      if prev == null {
        // removing the head node
        assert Contents[..0] + Contents[1..] == Contents[1..];
        assert nodes[..0] + nodes[1..] == nodes[1..];
        UnlinkHead();
      } else {
        // removing the tail node or a middle node
        UnlinkAfter(prev, cur, i);
      }
    }

    /** Replaces the partition of the first node equal to `old_` by `new_`.
        On success the nodes, their links, the head, the tail and the count
        are kept and only that node's payload changes; ordering is not
        checked. When no node matches, including on an empty list, the
        result is NotFound and nothing changes. */
    method Swap(old_: Partition, new_: Partition) returns (err: Outcome)
      requires Valid()
      modifies Repr
      ensures Valid() && Repr == old(Repr)
      ensures nodes == old(nodes) && head == old(head) && tail == old(tail)
      ensures numPartitions == old(numPartitions)
      ensures err == NotFound <==> old_ !in old(Contents)
      ensures err == NotFound ==> Contents == old(Contents)
      ensures err == Ok ==> Contents == Replace(old(Contents), old_, new_)
    {
      if numPartitions <= 0 {
        return NotFound;
      }
      var _, cur, i := Find(old_);
      if cur == null {
        return NotFound;
      }
      Store(cur, i, new_);
      return Ok;
    }

    /** Overwrites the payload of the node at position `i`, leaving every
        link untouched. */
    method Store(cur: Node, ghost i: nat, p: Partition)
      requires Valid() && i < |nodes| && cur == nodes[i]
      modifies this, cur
      ensures Valid() && Repr == old(Repr)
      ensures nodes == old(nodes) && head == old(head) && tail == old(tail)
      ensures numPartitions == old(numPartitions)
      ensures Contents == old(Contents)[i := p]
    {
      cur.val := p;
      Contents := Contents[i := p];
      forall k | 0 <= k < |nodes|
        ensures nodes[k].val == Contents[k]
        ensures nodes[k].next == if k + 1 < |nodes| then nodes[k + 1] else null
      {
        assert old(nodes[k].next) == if k + 1 < |nodes| then nodes[k + 1] else null;
        if k != i {
          assert old(nodes[k].val) == old(Contents)[k];
        }
      }
    }

    /** The diagnostic rendering: the node count and the time bounds of each
        node from head to tail. It walks the links and has no error case. */
    method String() returns (count: int, bounds: seq<Bounds>)
      requires Valid()
      ensures count == |Contents| && |bounds| == count
      ensures forall k :: 0 <= k < |bounds| ==>
        bounds[k] == Bounds(Contents[k].minT, Contents[k].maxT)
    {
      count := numPartitions;
      bounds := [];
      var cur := head;
      while cur != null
        invariant |bounds| <= |nodes|
        invariant cur == if |bounds| < |nodes| then nodes[|bounds|] else null
        invariant forall k :: 0 <= k < |bounds| ==>
          bounds[k] == Bounds(Contents[k].minT, Contents[k].maxT)
        decreases |nodes| - |bounds|
      {
        bounds := bounds + [Bounds(cur.val.minT, cur.val.maxT)];
        cur := cur.next;
      }
    }
  }
}
