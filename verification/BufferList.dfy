/** The buffer of decoded images (`buffer.c`): a doubly linked list in order of use, with pinned nodes. */
module BufferList {

  /** A decoded image. `link` counts its users; `resident` says whether its data is in memory. */
  class Node {
    const size: nat
    var link: nat
    var resident: bool
    var next: Node?
    var pre: Node?

    constructor (size: nat, link: nat)
      ensures this.size == size && this.link == link && resident
    {
      this.size, this.link, resident := size, link, true;
      next, pre := null, null;
    }
  }

  // ---------------------------------------------------------------- what eviction comes to

  function SizeOf(nodes: seq<Node>): nat {
    if nodes == [] then 0 else SizeOf(nodes[..|nodes| - 1]) + nodes[|nodes| - 1].size
  }

  /** The nodes in use, in order. */
  function Pinned(nodes: seq<Node>): seq<Node>
    reads nodes`link
  {
    if nodes == [] then [] else
      var n := nodes[|nodes| - 1];
      Pinned(nodes[..|nodes| - 1]) + if n.link > 0 then [n] else []
  }

  /** What the nodes that are not in use take up. */
  function Idle(nodes: seq<Node>): nat
    reads nodes`link
  {
    if nodes == [] then 0 else
      var n := nodes[|nodes| - 1];
      Idle(nodes[..|nodes| - 1]) + if n.link > 0 then 0 else n.size
  }

  /**
    * Eviction can make room: the idle nodes take up enough, and it need not take the last node of all. The original
    * follows a null pointer when it takes the only node.
    */
  ghost predicate CanMakeRoom(nodes: seq<Node>, free: nat, need: nat)
    reads nodes`link
  {
    || free >= need
    || (free + Idle(nodes) >= need
        && (Pinned(nodes) != [] || (nodes != [] && free + Idle(nodes[..|nodes| - 1]) >= need)))
  }

  /** `i` nodes were met: the idle ones of them are gone, those in use follow the rest, and no earlier stop sufficed. */
  ghost predicate Evicted(before: seq<Node>, free: nat, need: nat, i: nat, after: seq<Node>, free': nat)
    reads before`link
  {
    && i <= |before| && after == before[i..] + Pinned(before[..i]) && free' == free + Idle(before[..i])
    && forall k :: 0 <= k < i ==> free + Idle(before[..k]) < need
  }

  lemma PrefixSnoc(nodes: seq<Node>, i: nat)
    requires i < |nodes|
    ensures Idle(nodes[..i + 1]) == Idle(nodes[..i]) + if nodes[i].link > 0 then 0 else nodes[i].size
    ensures Pinned(nodes[..i + 1]) == Pinned(nodes[..i]) + if nodes[i].link > 0 then [nodes[i]] else []
  {
    assert nodes[..i + 1][..i] == nodes[..i];
  }

  lemma {:induction false} IdleMonotone(nodes: seq<Node>, i: nat, j: nat)
    requires i <= j <= |nodes|
    ensures Idle(nodes[..i]) <= Idle(nodes[..j]) && (Pinned(nodes[..i]) != [] ==> Pinned(nodes[..j]) != [])
    decreases j
  {
    hide Idle, Pinned;
    if i < j {
      IdleMonotone(nodes, i, j - 1);
      PrefixSnoc(nodes, j - 1);
    }
  }

  /** As long as room is missing, there is a next node to meet and another one besides it. */
  lemma MoreToMeet(before: seq<Node>, free: nat, need: nat, i: nat, after: seq<Node>, free': nat)
    requires CanMakeRoom(before, free, need) && Evicted(before, free, need, i, after, free') && free' < need
    ensures i < |before| && |after| >= 2 && after[0] == before[i]
  {
    var n := |before|;
    assert before[..n] == before;
    IdleMonotone(before, 0, i);
    if i + 1 == n {
      PrefixSnoc(before, i);
    }
  }

  /** Meeting one more. */
  lemma OneMore(before: seq<Node>, free: nat, need: nat, i: nat, after: seq<Node>, free': nat)
    requires Evicted(before, free, need, i, after, free') && i < |before| && free' < need
    ensures var n := before[i];
            Evicted(before, free, need, i + 1, after[1..] + if n.link > 0 then [n] else [],
                    if n.link > 0 then free' else free' + n.size)
  {
    PrefixSnoc(before, i);
    hide Idle, Pinned;
    assert after[1..] == before[i + 1..] + Pinned(before[..i]);
    forall k | 0 <= k < i + 1 ensures free + Idle(before[..k]) < need {
    }
  }

  /** One step of eviction on the list alone. */
  function TopTaken(nodes: seq<Node>): (r: seq<Node>)
    requires nodes != []
    reads nodes`link
    ensures forall n :: n in r ==> n in nodes
  {
    nodes[1..] + if nodes[0].link > 0 then [nodes[0]] else []
  }

  function FreedByTop(nodes: seq<Node>): nat
    requires nodes != []
    reads nodes`link
  {
    if nodes[0].link > 0 then 0 else nodes[0].size
  }

  lemma {:induction false} IdleAppend(a: seq<Node>, b: seq<Node>)
    ensures Idle(a + b) == Idle(a) + Idle(b) && Pinned(a + b) == Pinned(a) + Pinned(b)
  {
    if b == [] {
      assert a + b == a;
    } else {
      IdleAppend(a, b[..|b| - 1]);
      assert (a + b)[..|a + b| - 1] == a + b[..|b| - 1];
    }
  }

  lemma IdleOne(n: Node)
    ensures Idle([n]) == if n.link > 0 then 0 else n.size
    ensures Pinned([n]) == if n.link > 0 then [n] else []
  {
    assert [n][..0] == [];
  }

  lemma IdleCons(nodes: seq<Node>)
    requires nodes != []
    ensures Idle(nodes) == Idle(nodes[1..]) + if nodes[0].link > 0 then 0 else nodes[0].size
    ensures Pinned(nodes) == (if nodes[0].link > 0 then [nodes[0]] else []) + Pinned(nodes[1..])
  {
    IdleOne(nodes[0]);
    IdleAppend([nodes[0]], nodes[1..]);
    assert [nodes[0]] + nodes[1..] == nodes;
  }

  /** The totals after one step. */
  lemma TopTotals(nodes: seq<Node>)
    requires nodes != []
    ensures Idle(TopTaken(nodes)) == Idle(nodes) - FreedByTop(nodes)
    ensures Pinned(TopTaken(nodes)) == [] <==> Pinned(nodes) == []
  {
    var rest := nodes[1..];
    IdleCons(nodes);
    IdleAppend(rest, [nodes[0]]);
    IdleOne(nodes[0]);
    assert rest + [] == rest;
  }

  /** With no node in use, the totals of all but the last. */
  lemma TopIdleTotals(nodes: seq<Node>)
    requires |nodes| >= 2 && nodes[0].link == 0
    ensures |TopTaken(nodes)| == |nodes| - 1
    ensures Idle(TopTaken(nodes)[..|nodes| - 2]) == Idle(nodes[..|nodes| - 1]) - FreedByTop(nodes)
  {
    var n := |nodes| - 1;
    IdleCons(nodes[..n]);
    assert nodes[1..] + [] == nodes[1..];
    assert nodes[..n][1..] == nodes[1..][..n - 1];
  }

  lemma FirstPinned(nodes: seq<Node>)
    requires nodes != [] && Pinned(nodes) == []
    ensures nodes[0].link == 0
  {
    IdleCons(nodes);
  }

  /** Where room cannot be made it is missing, and a step of eviction does not change that. */
  lemma StepCannotMakeRoom(nodes: seq<Node>, free: nat, need: nat)
    requires !CanMakeRoom(nodes, free, need) && |nodes| >= 2
    ensures free < need && !CanMakeRoom(TopTaken(nodes), free + FreedByTop(nodes), need)
  {
    TopTotals(nodes);
    if Pinned(nodes) == [] {
      FirstPinned(nodes);
      TopIdleTotals(nodes);
    }
    hide Idle, Pinned, TopTaken, FreedByTop;
    if Pinned(nodes) == [] {
      LastStays(nodes);
    } else {
      StillMissing(nodes, free, need);
    }
  }

  /** What a step frees is part of what is idle. */
  lemma StillMissing(nodes: seq<Node>, free: nat, need: nat)
    requires nodes != [] && free + Idle(nodes) < need
    ensures free + FreedByTop(nodes) < need
  {
    TopTotals(nodes);
  }

  lemma LastStays(nodes: seq<Node>)
    requires |nodes| >= 2 && nodes[0].link == 0
    ensures FreedByTop(nodes) <= Idle(nodes[..|nodes| - 1]) && FreedByTop(nodes) <= Idle(nodes)
  {
    TopIdleTotals(nodes);
    TopTotals(nodes);
  }

  /** The list and the free room after `n` steps of eviction; the only node is never taken. */
  function Stepped(nodes: seq<Node>, free: nat, n: nat): (r: (seq<Node>, nat))
    reads nodes`link
    decreases n
  {
    if n == 0 || |nodes| < 2 then (nodes, free) else Stepped(TopTaken(nodes), free + FreedByTop(nodes), n - 1)
  }

  lemma {:induction false} NeverRoom(nodes: seq<Node>, free: nat, need: nat, n: nat)
    requires !CanMakeRoom(nodes, free, need)
    ensures Stepped(nodes, free, n).1 < need
    decreases n
  {
    if n > 0 && |nodes| >= 2 {
      StepCannotMakeRoom(nodes, free, need);
      hide TopTaken, FreedByTop, CanMakeRoom;
      NeverRoom(TopTaken(nodes), free + FreedByTop(nodes), need, n - 1);
    }
  }

  lemma OneStep(nodes: seq<Node>, free: nat, n: nat)
    requires |nodes| >= 2
    ensures Stepped(nodes, free, n + 1) == Stepped(nodes[1..] + if nodes[0].link > 0 then [nodes[0]] else [],
                                                   if nodes[0].link > 0 then free else free + nodes[0].size, n)
  {
  }

  lemma {:induction false} RoomAtLast(before: seq<Node>, free: nat, need: nat, i: nat, after: seq<Node>, free': nat)
    returns (n: nat)
    requires CanMakeRoom(before, free, need) && Evicted(before, free, need, i, after, free')
    ensures Stepped(after, free', n).1 >= need
    decreases |before| - i
  {
    hide CanMakeRoom, Evicted;
    n := 0;
    if free' < need {
      MoreToMeet(before, free, need, i, after, free');
      OneMore(before, free, need, i, after, free');
      var m := RoomAtLast(before, free, need, i + 1, after[1..] + if after[0].link > 0 then [after[0]] else [],
                          if after[0].link > 0 then free' else free' + after[0].size);
      OneStep(after, free', m);
      n := m + 1;
    }
  }

  /**
    * The condition is exact: some number of steps of the eviction loop makes room if and only if it holds. Otherwise the
    * loop never ends, or comes to take the only node.
    */
  lemma RoomIsMadeIff(nodes: seq<Node>, free: nat, need: nat)
    ensures CanMakeRoom(nodes, free, need) <==> exists n :: Stepped(nodes, free, n).1 >= need
  {
    hide CanMakeRoom, Stepped;
    if CanMakeRoom(nodes, free, need) {
      NothingMet(nodes, free, need);
      var n := RoomAtLast(nodes, free, need, 0, nodes, free);
    } else {
      forall n: nat ensures Stepped(nodes, free, n).1 < need {
        NeverRoom(nodes, free, need, n);
      }
    }
  }

  lemma NothingMet(before: seq<Node>, free: nat, need: nat)
    ensures Evicted(before, free, need, 0, before, free)
  {
    assert before[0..] + [] == before;
  }

  lemma {:induction false} IdleAndPinned(nodes: seq<Node>)
    ensures Idle(nodes) + SizeOf(Pinned(nodes)) == SizeOf(nodes)
  {
    if nodes != [] {
      var n := nodes[|nodes| - 1];
      IdleAndPinned(nodes[..|nodes| - 1]);
      assert (Pinned(nodes[..|nodes| - 1]) + [n])[..|Pinned(nodes[..|nodes| - 1])|] == Pinned(nodes[..|nodes| - 1]);
      assert Pinned(nodes[..|nodes| - 1]) + [] == Pinned(nodes[..|nodes| - 1]);
    }
  }

  /**
    * In terms of the capacity: room can be made for a new image exactly when it is there, or when it and the images in
    * use fit together, one of which is on the list or else it and the last one do.
    */
  lemma RoomByCapacity(nodes: seq<Node>, free: nat, need: nat, capacity: nat)
    requires free + SizeOf(nodes) == capacity
    ensures CanMakeRoom(nodes, free, need) <==>
              || free >= need
              || (SizeOf(Pinned(nodes)) + need <= capacity
                  && (Pinned(nodes) != [] || (nodes != [] && nodes[|nodes| - 1].size + need <= capacity)))
  {
    IdleAndPinned(nodes);
    hide Pinned;
    if nodes != [] && Pinned(nodes) == [] {
      PrefixSnoc(nodes, |nodes| - 1);
      assert nodes[..|nodes|] == nodes;
    }
  }

  /** What `n` images of one size take up. */
  function Images(n: nat, size: nat): (r: nat) {
    n * size
  }

  lemma OneImageMore(n: nat, size: nat)
    ensures Images(n + 1, size) == Images(n, size) + size && Images(0, size) == 0
  {
  }

  lemma {:induction false} MoreImages(m: nat, n: nat, size: nat)
    requires m <= n
    ensures Images(m, size) <= Images(n, size)
    decreases n
  {
    hide Images;
    if m < n {
      MoreImages(m, n - 1, size);
      OneImageMore(n - 1, size);
    }
  }

  lemma {:induction false} SizeOfEqual(nodes: seq<Node>, size: nat)
    requires forall n :: n in nodes ==> n.size == size
    ensures SizeOf(nodes) == Images(|nodes|, size)
  {
    hide Images;
    OneImageMore(0, size);
    if nodes != [] {
      SizeOfEqual(nodes[..|nodes| - 1], size);
      OneImageMore(|nodes| - 1, size);
    }
  }

  lemma {:induction false} PinnedAreListed(nodes: seq<Node>)
    ensures forall n :: n in Pinned(nodes) ==> n in nodes && n.link > 0
    ensures forall n :: n in nodes && n.link > 0 ==> n in Pinned(nodes)
  {
    if nodes != [] { PinnedAreListed(nodes[..|nodes| - 1]); }
  }

  /**
    * What eviction leaves: of the nodes it has met those that are in use, and all others. What it frees is what it drops,
    * and one node fewer would not have been enough.
    */
  lemma KeptIff(before: seq<Node>, free: nat, need: nat, i: nat, after: seq<Node>, free': nat)
    requires Evicted(before, free, need, i, after, free')
    ensures forall n :: n in after <==> n in before[i..] || (n in before && n.link > 0)
    ensures free' + SizeOf(after) == free + SizeOf(before)
    ensures i > 0 ==> free + SizeOf(before[..i - 1]) < need + SizeOf(Pinned(before[..i - 1]))
  {
    hide Idle, Pinned, SizeOf;
    PinnedAreListed(before[..i]);
    assert before == before[..i] + before[i..];
    forall n ensures n in after <==> n in before[i..] || (n in before && n.link > 0) {
      assert n in before <==> n in before[..i] || n in before[i..];
    }
    IdleAndPinned(before[..i]);
    SizeOfJoin(before[..i], before[i..]);
    SizeOfJoin(before[i..], Pinned(before[..i]));
    if i > 0 { IdleAndPinned(before[..i - 1]); }
  }

  lemma {:induction false} SizeOfJoin(a: seq<Node>, b: seq<Node>)
    ensures SizeOf(a + b) == SizeOf(a) + SizeOf(b)
  {
    if b == [] {
      assert a + b == a;
    } else {
      SizeOfJoin(a, b[..|b| - 1]);
      assert (a + b)[..|a + b| - 1] == a + b[..|b| - 1];
    }
  }

  /**
    * When all images take up the same, room for one more can be made exactly if the buffer holds it, the images in use,
    * and, where there are any images at all, at least one of those.
    */
  lemma RoomForImage(nodes: seq<Node>, free: nat, size: nat, capacity: nat)
    requires free + SizeOf(nodes) == capacity && forall n :: n in nodes ==> n.size == size
    ensures CanMakeRoom(nodes, free, size) <==>
              capacity >= Images(if nodes == [] then 1 else if Pinned(nodes) == [] then 2 else |Pinned(nodes)| + 1, size)
  {
    hide CanMakeRoom, Images, Pinned, SizeOf;
    RoomByCapacity(nodes, free, size, capacity);
    PinnedAreListed(nodes);
    IdleAndPinned(nodes);
    SizeOfEqual(nodes, size);
    SizeOfEqual(Pinned(nodes), size);
    OneImageMore(0, size);
    OneImageMore(1, size);
    OneImageMore(|Pinned(nodes)|, size);
    OneImageMore(|nodes|, size);
    if nodes != [] { MoreImages(1, |nodes|, size); }
  }

  // ---------------------------------------------------------------- the list

  ghost predicate Distinct(nodes: seq<Node>) {
    forall i, j :: 0 <= i < j < |nodes| ==> nodes[i] != nodes[j]
  }

  /** Neighbours point at each other. */
  ghost predicate Chained(nodes: seq<Node>)
    reads nodes`next, nodes`pre
  {
    forall i, j :: 0 <= i < |nodes| && j == i + 1 && j < |nodes| ==> nodes[i].next == nodes[j] && nodes[j].pre == nodes[i]
  }

  ghost predicate InMemory(nodes: seq<Node>)
    reads nodes`resident
  {
    forall k :: 0 <= k < |nodes| ==> nodes[k].resident
  }

  ghost predicate OneOf(n: Node, nodes: seq<Node>) {
    exists i :: 0 <= i < |nodes| && nodes[i] == n
  }

  class Buffer {
    var head: Node?
    var tail: Node?
    var size: nat
    ghost var nodes: seq<Node>
    ghost const capacity: nat

    constructor (capacity: nat)
      ensures Valid() && nodes == [] && this.capacity == capacity
    {
      head, tail, size, nodes := null, null, capacity, [];
      this.capacity := capacity;
    }

    /** The pointers make up the list of `nodes`. */
    ghost predicate Linked()
      reads this`head, this`tail, this`nodes, nodes`next, nodes`pre
    {
      && Distinct(nodes) && Chained(nodes)
      && (nodes == [] ==> head == null)
      && (nodes != [] ==> head == nodes[0] && tail == nodes[|nodes| - 1] && nodes[0].pre == null
                          && nodes[|nodes| - 1].next == null)
    }

    /** The list is well formed, free and used room add up, and exactly what is listed is in memory. */
    ghost predicate Valid()
      reads this, nodes`next, nodes`pre, nodes`resident
    {
      Linked() && size + SizeOf(nodes) == capacity && InMemory(nodes)
    }

    lemma UseValid()
      requires Valid()
      ensures Linked() && size + SizeOf(nodes) == capacity && InMemory(nodes)
    {
    }

    lemma MakeValid()
      requires Linked() && size + SizeOf(nodes) == capacity && InMemory(nodes)
      ensures Valid()
    {
    }

    /** Takes the first of several nodes off the list. */
    method UnlinkHead() returns (ptr: Node)
      requires Linked() && |nodes| >= 2
      modifies this`head, this`nodes, nodes`pre
      ensures Linked() && ptr == old(nodes[0]) && nodes == old(nodes)[1..]
      ensures forall k :: 0 <= k < |nodes| ==> nodes[k] != ptr
    {
      ptr := head;
      assert nodes[0].next == nodes[1];
      head := ptr.next;
      nodes := nodes[1..];
      head.pre := null;
    }

    /** Puts a node at the end of a list that is not empty. */
    method Append(item: Node)
      requires Linked() && nodes != [] && forall k :: 0 <= k < |nodes| ==> nodes[k] != item
      modifies this`tail, this`nodes, nodes`next, item`pre, item`next
      ensures Linked() && nodes == old(nodes) + [item]
    {
      tail.next := item;
      item.pre := tail;
      item.next := null;
      tail := item;
      nodes := nodes + [item];
    }

    /** `delete_from_top_action`: frees the first node's data, or, when it is in use, moves it to the end. */
    method DeleteFromTop()
      requires Valid() && |nodes| >= 2
      modifies this`head, this`tail, this`size, this`nodes, nodes`next, nodes`pre, nodes`resident
      ensures Valid() && nodes == old(TopTaken(nodes)) && size == old(size + FreedByTop(nodes))
      ensures old(nodes[0].link) == 0 ==> !old(nodes[0]).resident
    {
      var ptr := TakeHead();
      if ptr.link == 0 {
        ptr.resident := false;
        assert nodes + [] == nodes;
      } else {
        PutBack(ptr);
      }
    }

    /** The first node off the list, its room free. */
    method TakeHead() returns (ptr: Node)
      requires Valid() && |nodes| >= 2
      modifies this`head, this`size, this`nodes, nodes`pre
      ensures Valid() && ptr == old(nodes[0]) && nodes == old(nodes)[1..] && size == old(size) + ptr.size
      ensures forall k :: 0 <= k < |nodes| ==> nodes[k] != ptr
      ensures ptr.resident
    {
      hide SizeOf, Linked;
      SizeOfCons(nodes);
      assert forall k :: 1 <= k < |nodes| ==> nodes[k].resident;
      ptr := UnlinkHead();
      size := size + ptr.size;
    }

    /** `move_action` on a node just taken off the list: there is room for it. */
    method PutBack(item: Node)
      requires Valid() && nodes != [] && item.resident && size >= item.size
      requires forall k :: 0 <= k < |nodes| ==> nodes[k] != item
      modifies this`tail, this`size, this`nodes, nodes`next, item`pre, item`next
      ensures Valid() && nodes == old(nodes) + [item] && size == old(size) - item.size
    {
      hide SizeOf, Linked;
      SizeOfAppend(nodes, item);
      Append(item);
      size := size - item.size;
    }

    /** The eviction loop: `i` is how many nodes it has met. */
    method MakeRoom(need: nat) returns (ghost i: nat)
      requires Valid() && CanMakeRoom(nodes, size, need)
      modifies this`head, this`tail, this`size, this`nodes, nodes`next, nodes`pre, nodes`resident
      ensures Valid() && size >= need && (old(nodes) != [] ==> nodes != [])
      ensures Evicted(old(nodes), old(size), need, i, nodes, size)
      ensures forall k :: 0 <= k < |nodes| ==> OneOf(nodes[k], old(nodes))
    {
      hide Idle, Pinned, SizeOf, Linked, InMemory;
      i := 0;
      ghost var before, free := nodes, size;
      NothingMet(before, free, need);
      while size < need
        invariant Valid() && Evicted(before, free, need, i, nodes, size)
        invariant old(nodes) != [] ==> nodes != []
        invariant forall k :: 0 <= k < |nodes| ==> OneOf(nodes[k], before)
        invariant forall n :: n in before ==> n.link == old(n.link)
        decreases |before| - i
      {
        MoreToMeet(before, free, need, i, nodes, size);
        OneMore(before, free, need, i, nodes, size);
        DeleteFromTop();
        i := i + 1;
      }
    }

    /** `insert_to_buffer`: makes room and puts a new node at the end. */
    method Insert(item: Node) returns (ghost i: nat, ghost kept: seq<Node>)
      requires Valid() && CanMakeRoom(nodes, size, item.size) && item.resident
      requires forall k :: 0 <= k < |nodes| ==> nodes[k] != item
      modifies this`head, this`tail, this`size, this`nodes, nodes`next, nodes`pre, nodes`resident, item`next, item`pre
      ensures Valid() && nodes == kept + [item]
      ensures Evicted(old(nodes), old(size), item.size, i, kept, size + item.size)
    {
      hide Idle, Pinned, SizeOf, Linked, CanMakeRoom;
      i := MakeRoom(item.size);
      kept := nodes;
      StillOutside(old(nodes), old(size), item.size, i, nodes, size, item);
      if head != null {
        HeadMeans();
        PutBack(item);
      } else {
        HeadMeans();
        Only(item);
        assert nodes == [] + [item];
      }
    }

    lemma HeadMeans()
      requires Linked()
      ensures head == null <==> nodes == []
    {
    }

    /** The first node of an empty list. */
    method Only(item: Node)
      requires Valid() && nodes == [] && item.resident && size >= item.size
      modifies this`head, this`tail, this`size, this`nodes, item`next, item`pre
      ensures Valid() && nodes == [item] && size == old(size) - item.size
    {
      SizeOfAppend([], item);
      assert [] + [item] == [item];
      head := item;
      item.pre := null;
      item.next := null;
      tail := item;
      nodes := [item];
      size := size - item.size;
    }

    /** Takes any node but the last off the list. */
    method Unlink(item: Node, ghost i: nat)
      requires Linked() && i + 1 < |nodes| && nodes[i] == item
      modifies this`head, this`nodes, nodes`next, nodes`pre
      ensures Linked() && nodes == old(nodes[..i] + nodes[i + 1..])
      ensures forall k :: 0 <= k < |nodes| ==> nodes[k] != item
    {
      ghost var before := nodes;
      assert nodes[i].next == nodes[i + 1];
      if i > 0 { assert nodes[i - 1].next == nodes[i] && nodes[i].pre == nodes[i - 1]; }
      if item.pre != null {
        item.pre.next := item.next;
      } else {
        head := item.next;
      }
      item.next.pre := item.pre;
      nodes := nodes[..i] + nodes[i + 1..];
      assert forall k :: 0 <= k < i ==> nodes[k] == before[k];
      assert forall k, l :: i <= k < |nodes| && l == k + 1 ==> nodes[k] == before[l];
    }

    /**
      * `move_in_buffer` with the function that reloads missing data: a node on the list moves to its end; one that was
      * evicted is reloaded, room is made for it, and it is put there again.
      */
    method MoveIn(item: Node, ghost at: nat) returns (ghost i: nat, ghost kept: seq<Node>)
      requires Valid() && nodes != []
      requires item.resident ==> at < |nodes| && nodes[at] == item
      requires !item.resident ==> item.size > 0 && CanMakeRoom(nodes, size, item.size)
      modifies this`head, this`tail, this`size, this`nodes, nodes`next, nodes`pre, nodes`resident
      modifies item`next, item`pre, item`resident
      ensures Valid() && item.resident && nodes == kept + [item]
      ensures old(item.resident) ==> kept == old(nodes[..at] + nodes[at + 1..]) && size == old(size)
      ensures !old(item.resident) ==> Evicted(old(nodes), old(size), item.size, i, kept, size + item.size)
    {
      i := 0;
      if item.resident {
        kept := MoveToEnd(item, at);
      } else {
        i, kept := Reload(item);
      }
    }

    /** An evicted node comes back. */
    method Reload(item: Node) returns (ghost i: nat, ghost kept: seq<Node>)
      requires Valid() && nodes != [] && !item.resident && CanMakeRoom(nodes, size, item.size)
      modifies this`head, this`tail, this`size, this`nodes, nodes`next, nodes`pre, nodes`resident
      modifies item`next, item`pre, item`resident
      ensures Valid() && item.resident && nodes == kept + [item]
      ensures Evicted(old(nodes), old(size), item.size, i, kept, size + item.size)
    {
      hide Idle, Pinned, SizeOf, Linked, InMemory, Evicted, CanMakeRoom, Valid;
      NotListed(item);
      item.resident := true;
      i := MakeRoom(item.size);
      kept := nodes;
      StillOutside(old(nodes), old(size), item.size, i, nodes, size, item);
      PutBack(item);
    }

    lemma NotListed(item: Node)
      requires Valid() && !item.resident
      ensures forall k :: 0 <= k < |nodes| ==> nodes[k] != item
    {
    }

    /** `move_action` on a node that is on the list. */
    method MoveToEnd(item: Node, ghost at: nat) returns (ghost kept: seq<Node>)
      requires Valid() && at < |nodes| && nodes[at] == item
      modifies this`head, this`tail, this`nodes, nodes`next, nodes`pre
      ensures Valid() && nodes == kept + [item] && kept == old(nodes[..at] + nodes[at + 1..])
    {
      hide *;
      kept := nodes[..at] + nodes[at + 1..];
      UseValid();
      SizeOfWithout(nodes, at);
      MemoryWithout(nodes, at);
      LastIsTail(at);
      if item != tail {
        Unlink(item, at);
        Append(item);
      } else {
        assert nodes == kept + [item];
      }
      MakeValid();
    }

    lemma LastIsTail(at: nat)
      requires Linked() && at < |nodes|
      ensures nodes[at] == tail <==> at + 1 == |nodes|
    {
    }
  }

  lemma {:induction false} SizeOfAppend(nodes: seq<Node>, n: Node)
    ensures SizeOf(nodes + [n]) == SizeOf(nodes) + n.size
  {
    assert (nodes + [n])[..|nodes|] == nodes;
  }

  lemma {:induction false} SizeOfCons(nodes: seq<Node>)
    requires nodes != []
    ensures SizeOf(nodes) == nodes[0].size + SizeOf(nodes[1..])
  {
    if |nodes| > 1 {
      SizeOfCons(nodes[..|nodes| - 1]);
      assert nodes[..|nodes| - 1][1..] == nodes[1..][..|nodes| - 2];
    }
  }

  /** What eviction keeps was there before. */
  lemma StillOutside(before: seq<Node>, free: nat, need: nat, i: nat, after: seq<Node>, free': nat, item: Node)
    requires Evicted(before, free, need, i, after, free')
    requires forall k :: 0 <= k < |before| ==> before[k] != item
    ensures forall k :: 0 <= k < |after| ==> after[k] != item
  {
    hide Idle;
    PinnedAmong(before[..i], item);
  }

  lemma {:induction false} PinnedAmong(nodes: seq<Node>, item: Node)
    requires forall k :: 0 <= k < |nodes| ==> nodes[k] != item
    ensures forall k :: 0 <= k < |Pinned(nodes)| ==> Pinned(nodes)[k] != item
  {
    if nodes != [] { PinnedAmong(nodes[..|nodes| - 1], item); }
  }

  /** Taking a node out and putting it at the end keeps the total. */
  lemma {:induction false} SizeOfWithout(nodes: seq<Node>, at: nat)
    requires at < |nodes|
    ensures SizeOf(nodes[..at] + nodes[at + 1..] + [nodes[at]]) == SizeOf(nodes)
    ensures SizeOf(nodes) == SizeOf(nodes[..at] + nodes[at + 1..]) + nodes[at].size
  {
    var n := |nodes| - 1;
    SizeOfAppend(nodes[..at] + nodes[at + 1..], nodes[at]);
    if at < n {
      SizeOfWithout(nodes[..n], at);
      assert nodes[..n][..at] + nodes[..n][at + 1..] + [nodes[n]] == nodes[..at] + nodes[at + 1..];
      SizeOfAppend(nodes[..n][..at] + nodes[..n][at + 1..], nodes[n]);
    } else {
      assert nodes[..at] + nodes[at + 1..] == nodes[..n];
    }
  }

  lemma MemoryWithout(nodes: seq<Node>, at: nat)
    requires at < |nodes| && InMemory(nodes)
    ensures InMemory(nodes[..at] + nodes[at + 1..] + [nodes[at]]) && nodes[at].resident
  {
    var moved := nodes[..at] + nodes[at + 1..] + [nodes[at]];
    forall k | 0 <= k < |moved| ensures moved[k].resident {
      if at <= k < |nodes| - 1 { assert moved[k] == nodes[k + 1]; }
    }
  }
}
