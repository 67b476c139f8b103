/** The compression pipeline: threads that pass images on through bounded queues, over every interleaving. */
module Pipeline {
  import opened Common

  type Image = nat

  // ---------------------------------------------------------------- queues

  /** An image in a queue, with the memory it is charged for. */
  datatype Item = Item(image: Image, mem: nat)

  /** A queue's items, the room left in it, and how many producers have announced their end. */
  datatype Queue = Queue(items: seq<Item>, size: int, ending: nat)

  function Enqueue(q: Queue, item: Item): Queue {
    Queue(q.items + [item], q.size - item.mem, q.ending)
  }

  function Dequeue(q: Queue): Queue
    requires q.items != []
  {
    Queue(q.items[1..], q.size + q.items[0].mem, q.ending)
  }

  /** `ending` is an 8-bit count. */
  function Announce(q: Queue): Queue {
    q.(ending := (q.ending + 1) % 256)
  }

  function Used(items: seq<Item>): nat {
    if items == [] then 0 else items[0].mem + Used(items[1..])
  }

  lemma {:induction false} UsedAppend(items: seq<Item>, item: Item)
    ensures Used(items + [item]) == Used(items) + item.mem
  {
    if items == [] {
      assert [item][1..] == [];
    } else {
      UsedAppend(items[1..], item);
      assert (items + [item])[1..] == items[1..] + [item];
    }
  }

  /** `ListNode`: the record that threads share. */
  class List {
    var items: seq<Item>
    var size: int
    var counter: nat
    var ending: nat

    /** `INIT_LIST`. */
    constructor (oriSize: nat)
      ensures Valid(oriSize) && Value() == Queue([], oriSize, 0)
    {
      items, size, counter, ending := [], oriSize, 0, 0;
    }

    ghost predicate Valid(oriSize: nat)
      reads this
    {
      counter == |items| && size >= 0 && size + Used(items) == oriSize
    }

    function Value(): Queue
      reads this
    {
      Queue(items, size, ending)
    }

    /** A consumer's step: takes the head if there is one, otherwise tells whether the producers are at their end. */
    method TryTake(endsAt: nat, anyEnd: bool, ghost oriSize: nat) returns (item: Option<Item>, over: bool)
      requires Valid(oriSize)
      modifies this
      ensures Valid(oriSize)
      ensures old(items) != [] ==> item == Some(old(items[0])) && Value() == Dequeue(old(Value())) && !over
      ensures old(items) == [] ==> item == None && Value() == old(Value())
      ensures old(items) == [] ==> (over <==> if anyEnd then ending != 0 else ending == endsAt)
    {
      item, over := None, false;
      if counter == 0 {
        over := if anyEnd then ending != 0 else ending == endsAt;
        return;
      }
      item := Some(items[0]);
      size := size + items[0].mem;
      items := items[1..];
      counter := counter - 1;
    }

    /** A producer's step: appends when there is room. */
    method TryPut(item: Item, ghost oriSize: nat) returns (ok: bool)
      requires Valid(oriSize)
      modifies this
      ensures Valid(oriSize) && (ok <==> old(size) >= item.mem)
      ensures Value() == if ok then Enqueue(old(Value()), item) else old(Value())
    {
      ok := size >= item.mem;
      if ok {
        UsedAppend(items, item);
        items := items + [item];
        counter := counter + 1;
        size := size - item.mem;
      }
    }

    method End(ghost oriSize: nat)
      requires Valid(oriSize)
      modifies this
      ensures Valid(oriSize) && Value() == Announce(old(Value()))
    {
      ending := (ending + 1) % 256;
    }
  }

  // ---------------------------------------------------------------- threads and wiring

  const LAST: nat := 6

  /** A thread's stage, the queue it takes from (but at stage 0) and the one it puts to (but at the last stage). */
  datatype Thread = Thread(stage: nat, inq: nat, outq: nat)

  /** Threads, the room in each queue, its stage, one of its consumers, and whether one end suffices. */
  datatype Config = Config(threads: seq<Thread>, room: seq<nat>, qstage: seq<nat>, consumer: seq<nat>,
                           anyEnd: seq<bool>)

  predicate Produces(t: Thread, q: nat) {
    t.stage < LAST && t.outq == q
  }

  function Producers(threads: seq<Thread>, q: nat): nat {
    if threads == [] then 0 else
      Producers(threads[..|threads| - 1], q) + if Produces(threads[|threads| - 1], q) then 1 else 0
  }

  predicate WiredThread(c: Config, t: Thread) {
    && t.stage <= LAST
    && (t.stage > 0 ==> t.inq < |c.room| && t.inq < |c.qstage| && c.qstage[t.inq] == t.stage - 1)
    && (t.stage < LAST ==> t.outq < |c.room| && t.outq < |c.qstage| && c.qstage[t.outq] == t.stage)
  }

  predicate HasConsumer(c: Config, q: nat)
    requires q < |c.consumer|
  {
    && c.consumer[q] < |c.threads|
    && c.threads[c.consumer[q]].stage > 0 && c.threads[c.consumer[q]].inq == q
  }

  /** The end of the producers can be told from the 8-bit count. */
  predicate Countable(c: Config, q: nat)
    requires q < |c.anyEnd|
  {
    Producers(c.threads, q) < 256 && (c.anyEnd[q] ==> Producers(c.threads, q) == 1)
  }

  /** Queues lead from stage to stage, and each has a consumer. */
  ghost predicate Connected(c: Config) {
    && |c.room| == |c.qstage| == |c.consumer| == |c.anyEnd|
    && (forall t :: 0 <= t < |c.threads| ==> WiredThread(c, c.threads[t]))
    && (forall q :: 0 <= q < |c.room| ==> HasConsumer(c, q))
  }

  /** Besides, each queue has few enough producers to count in 8 bits. */
  ghost predicate Wired(c: Config) {
    Connected(c) && forall q :: 0 <= q < |c.room| ==> Countable(c, q)
  }

  // ---------------------------------------------------------------- state and steps

  /** Waiting for an image, at work on one (then to be charged `mem`), past the loop, or ended. */
  datatype Status = Idle | Working(image: Image, mem: nat) | Leaving | Done

  datatype State = State(unread: seq<Image>, queues: seq<Queue>, status: seq<Status>, output: seq<Image>)

  datatype Event =
    | Read(t: nat, mem: nat)
    | Take(t: nat, mem: nat)
    | Put(t: nat)
    | Write(t: nat)
    | Leave(t: nat)
    | End(t: nat)

  predicate Shaped(c: Config, s: State) {
    |s.status| == |c.threads| && |s.queues| == |c.room|
  }

  /** A consumer leaves when its queue is empty and its producers are at their end. */
  predicate Over(c: Config, q: Queue, i: nat)
    requires i < |c.anyEnd|
  {
    q.items == [] && if c.anyEnd[i] then q.ending != 0 else q.ending == Producers(c.threads, i)
  }

  /** Decoders, detectors and the delta coders write an image they cannot handle; the last stage writes the rest. */
  predicate MayWrite(stage: nat) {
    stage == 1 || stage == 2 || stage == 4 || stage == LAST
  }

  ghost function ThreadAt(c: Config, t: nat): (th: Thread)
    requires Connected(c) && t < |c.threads|
    ensures th.stage <= LAST && |c.room| == |c.qstage| == |c.anyEnd|
    ensures th.stage > 0 ==> th.inq < |c.room| && c.qstage[th.inq] == th.stage - 1
    ensures th.stage < LAST ==> th.outq < |c.room| && c.qstage[th.outq] == th.stage
  {
    assert WiredThread(c, c.threads[t]);
    c.threads[t]
  }

  ghost predicate Enabled(c: Config, s: State, e: Event)
    requires Connected(c) && Shaped(c, s)
  {
    && e.t < |c.threads|
    && var th := ThreadAt(c, e.t);
       var st := s.status[e.t];
       match e
       case Read(t, mem) => th.stage == 0 && st == Idle && s.unread != []
       case Take(t, mem) => th.stage > 0 && st == Idle && s.queues[th.inq].items != []
       case Put(t) => th.stage < LAST && st.Working? && s.queues[th.outq].size >= st.mem
       case Write(t) => MayWrite(th.stage) && st.Working?
       case Leave(t) => st == Idle && (th.stage > 0 ==> Over(c, s.queues[th.inq], th.inq))
       case End(t) => st == Leaving
  }

  ghost function Do(c: Config, s: State, e: Event): (s': State)
    requires Connected(c) && Shaped(c, s) && Enabled(c, s, e)
    ensures Shaped(c, s')
  {
    var th := ThreadAt(c, e.t);
    var st := s.status[e.t];
    match e
    case Read(t, mem) => s.(unread := s.unread[1..], status := s.status[t := Working(s.unread[0], mem)])
    case Take(t, mem) =>
      var q := s.queues[th.inq];
      s.(queues := s.queues[th.inq := Dequeue(q)], status := s.status[t := Working(q.items[0].image, mem)])
    case Put(t) =>
      s.(queues := s.queues[th.outq := Enqueue(s.queues[th.outq], Item(st.image, st.mem))], status := s.status[t := Idle])
    case Write(t) => s.(output := s.output + [st.image], status := s.status[t := Idle])
    case Leave(t) => s.(status := s.status[t := Leaving])
    case End(t) =>
      var s1 := s.(status := s.status[t := Done]);
      if th.stage < LAST then s1.(queues := s1.queues[th.outq := Announce(s1.queues[th.outq])]) else s1
  }

  function Init(c: Config, images: seq<Image>): State {
    State(images, seq(|c.room|, i requires 0 <= i < |c.room| => Queue([], c.room[i], 0)), seq(|c.threads|, _ => Idle), [])
  }

  // ---------------------------------------------------------------- where the images are

  function ItemImages(items: seq<Item>): multiset<Image> {
    if items == [] then multiset{} else multiset{items[0].image} + ItemImages(items[1..])
  }

  function QueueImages(queues: seq<Queue>): multiset<Image> {
    if queues == [] then multiset{} else
      QueueImages(queues[..|queues| - 1]) + ItemImages(queues[|queues| - 1].items)
  }

  function Held(st: Status): multiset<Image> {
    if st.Working? then multiset{st.image} else multiset{}
  }

  function ThreadImages(status: seq<Status>): multiset<Image> {
    if status == [] then multiset{} else ThreadImages(status[..|status| - 1]) + Held(status[|status| - 1])
  }

  /** Every image, wherever it is, as often as it is there. */
  function AllImages(s: State): multiset<Image> {
    multiset(s.unread) + QueueImages(s.queues) + ThreadImages(s.status) + multiset(s.output)
  }

  lemma {:induction false} ItemImagesAppend(items: seq<Item>, item: Item)
    ensures ItemImages(items + [item]) == ItemImages(items) + multiset{item.image}
  {
    if items == [] {
      assert [item][1..] == [];
    } else {
      ItemImagesAppend(items[1..], item);
      assert (items + [item])[1..] == items[1..] + [item];
      hide ItemImages;
      AddTwice(multiset{items[0].image}, ItemImages(items[1..]), multiset{item.image});
    }
  }

  lemma AddTwice(a: multiset<Image>, b: multiset<Image>, c: multiset<Image>)
    ensures a + (b + c) == a + b + c
  {
  }

  lemma MoveAcross(a: multiset<Image>, x: multiset<Image>, b: multiset<Image>, y: multiset<Image>, z: multiset<Image>)
    requires a + x == b + y
    ensures a + z + x == b + z + y
  {
    assert a + z + x == a + x + z;
    assert b + z + y == b + y + z;
  }

  lemma {:induction false} QueueImagesUpdate(queues: seq<Queue>, i: nat, q: Queue)
    requires i < |queues|
    ensures QueueImages(queues[i := q]) + ItemImages(queues[i].items) == QueueImages(queues) + ItemImages(q.items)
  {
    hide ItemImages;
    var n := |queues| - 1;
    if i < n {
      QueueImagesUpdate(queues[..n], i, q);
      MoveAcross(QueueImages(queues[..n][i := q]), ItemImages(queues[i].items), QueueImages(queues[..n]),
                 ItemImages(q.items), ItemImages(queues[n].items));
      assert queues[i := q][..n] == queues[..n][i := q];
    } else {
      assert queues[i := q][..n] == queues[..n];
      assert QueueImages(queues[..n]) + ItemImages(q.items) + ItemImages(queues[n].items)
          == QueueImages(queues[..n]) + ItemImages(queues[n].items) + ItemImages(q.items);
    }
  }

  lemma {:induction false} ThreadImagesUpdate(status: seq<Status>, i: nat, st: Status)
    requires i < |status|
    ensures ThreadImages(status[i := st]) + Held(status[i]) == ThreadImages(status) + Held(st)
  {
    hide Held;
    var n := |status| - 1;
    if i < n {
      ThreadImagesUpdate(status[..n], i, st);
      MoveAcross(ThreadImages(status[..n][i := st]), Held(status[i]), ThreadImages(status[..n]), Held(st), Held(status[n]));
      assert status[i := st][..n] == status[..n][i := st];
    } else {
      assert status[i := st][..n] == status[..n];
      assert ThreadImages(status[..n]) + Held(st) + Held(status[n]) == ThreadImages(status[..n]) + Held(status[n]) + Held(st);
    }
  }

  // ---------------------------------------------------------------- invariants

  /** How many of the producers of queue `q` have ended. */
  function Ended(threads: seq<Thread>, status: seq<Status>, q: nat): nat
    requires |threads| == |status|
  {
    if threads == [] then 0 else
      var n := |threads| - 1;
      Ended(threads[..n], status[..n], q) + if Produces(threads[n], q) && status[n] == Done then 1 else 0
  }

  lemma {:induction false} EndedUpdate(threads: seq<Thread>, status: seq<Status>, q: nat, i: nat, st: Status)
    requires |threads| == |status| && i < |status| && status[i] != Done
    ensures Ended(threads, status[i := st], q)
         == Ended(threads, status, q) + if Produces(threads[i], q) && st == Done then 1 else 0
  {
    var n := |threads| - 1;
    if i < n {
      EndedUpdate(threads[..n], status[..n], q, i, st);
      assert status[i := st][..n] == status[..n][i := st];
    } else {
      assert status[i := st][..n] == status[..n];
    }
  }

  /** All producers have ended just when the count says so. */
  lemma {:induction false} AllEnded(threads: seq<Thread>, status: seq<Status>, q: nat)
    requires |threads| == |status|
    ensures Ended(threads, status, q) <= Producers(threads, q)
    ensures Ended(threads, status, q) == Producers(threads, q) <==>
              forall t :: 0 <= t < |threads| && Produces(threads[t], q) ==> status[t] == Done
  {
    hide Produces;
    if threads != [] {
      var n := |threads| - 1;
      AllEnded(threads[..n], status[..n], q);
      if Ended(threads, status, q) == Producers(threads, q) {
        assert Ended(threads[..n], status[..n], q) == Producers(threads[..n], q);
        forall t | 0 <= t < |threads| && Produces(threads[t], q) ensures status[t] == Done {
          if t < n { assert threads[..n][t] == threads[t] && status[..n][t] == status[t]; }
        }
      } else if forall t :: 0 <= t < |threads| && Produces(threads[t], q) ==> status[t] == Done {
        forall t | 0 <= t < n && Produces(threads[..n][t], q) ensures status[..n][t] == Done {
          assert threads[..n][t] == threads[t];
        }
      }
    }
  }

  ghost predicate QueueOk(c: Config, s: State, q: nat)
    requires Shaped(c, s) && q < |c.room|
  {
    && s.queues[q].size >= 0 && s.queues[q].size + Used(s.queues[q].items) == c.room[q]
    && s.queues[q].ending == Ended(c.threads, s.status, q)
  }

  predicate Gone(st: Status) {
    st == Leaving || st == Done
  }

  /** Once a consumer of `q` is gone, `q` is empty for good: all its producers have ended. */
  ghost predicate Closed(c: Config, s: State, q: nat)
    requires Shaped(c, s) && q < |c.room|
  {
    s.queues[q].items == [] && Ended(c.threads, s.status, q) == Producers(c.threads, q)
  }

  ghost predicate GoneOk(c: Config, s: State, t: nat)
    requires Wired(c) && Shaped(c, s) && t < |c.threads|
  {
    Gone(s.status[t]) && c.threads[t].stage > 0 ==> Closed(c, s, c.threads[t].inq)
  }

  /** What every step keeps. */
  ghost predicate Inv(c: Config, s: State, images: multiset<Image>) {
    && Wired(c) && Shaped(c, s)
    && (forall q :: 0 <= q < |c.room| ==> QueueOk(c, s, q))
    && (forall t :: 0 <= t < |c.threads| ==> GoneOk(c, s, t))
    && AllImages(s) == images
  }

  // ---------------------------------------------------------------- every step keeps them

  lemma StatusKeepsEnded(c: Config, s: State, t: nat, st: Status)
    requires Shaped(c, s) && t < |s.status| && s.status[t] != Done && st != Done
    ensures forall q: nat :: Ended(c.threads, s.status[t := st], q) == Ended(c.threads, s.status, q)
  {
    hide Ended;
    forall q: nat ensures Ended(c.threads, s.status[t := st], q) == Ended(c.threads, s.status, q) {
      EndedUpdate(c.threads, s.status, q, t, st);
    }
  }

  /** A gone consumer's queue gets nothing more: whoever is at work does not produce it. */
  lemma ClosedHasNoProducer(c: Config, s: State, q: nat, t: nat)
    requires Shaped(c, s) && q < |c.room| && Closed(c, s, q) && t < |c.threads| && s.status[t] != Done
    ensures !Produces(c.threads[t], q)
  {
    AllEnded(c.threads, s.status, q);
  }

  lemma QueueAt(c: Config, s: State, images: multiset<Image>, q: nat)
    requires Inv(c, s, images) && q < |c.room|
    ensures QueueOk(c, s, q) && HasConsumer(c, q) && Countable(c, q)
  {
  }

  lemma GoneAt(c: Config, s: State, images: multiset<Image>, t: nat)
    requires Inv(c, s, images) && t < |c.threads|
    ensures GoneOk(c, s, t)
  {
  }

  // Queues.

  lemma ReadQueues(c: Config, s: State, images: multiset<Image>, t: nat, st: Status, q: nat)
    requires Inv(c, s, images) && t < |c.threads| && s.status[t] != Done && st != Done && q < |c.room|
    ensures QueueOk(c, s.(status := s.status[t := st]), q)
  {
    QueueAt(c, s, images, q);
    StatusKeepsEnded(c, s, t, st);
    hide Ended, Used;
  }

  lemma TakeQueues(c: Config, s: State, images: multiset<Image>, e: Event, q: nat)
    requires Inv(c, s, images) && e.Take? && Enabled(c, s, e) && q < |c.room|
    ensures QueueOk(c, Do(c, s, e), q)
  {
    QueueAt(c, s, images, q);
    hide Inv, Ended;
    var st := Do(c, s, e).status[e.t];
    StatusKeepsEnded(c, s, e.t, st);
  }

  lemma PutQueues(c: Config, s: State, images: multiset<Image>, e: Event, q: nat)
    requires Inv(c, s, images) && e.Put? && Enabled(c, s, e) && q < |c.room|
    ensures QueueOk(c, Do(c, s, e), q)
  {
    QueueAt(c, s, images, q);
    StatusKeepsEnded(c, s, e.t, Idle);
    UsedAppend(s.queues[q].items, Item(s.status[e.t].image, s.status[e.t].mem));
    hide Inv, Ended, Used;
  }

  lemma EndQueues(c: Config, s: State, images: multiset<Image>, e: Event, q: nat)
    requires Inv(c, s, images) && e.End? && Enabled(c, s, e) && q < |c.room|
    ensures QueueOk(c, Do(c, s, e), q)
  {
    QueueAt(c, s, images, q);
    EndedUpdate(c.threads, s.status, q, e.t, Done);
    AllEnded(c.threads, s.status[e.t := Done], q);
    hide Inv, Ended, Used, Producers;
  }

  lemma StepQueues(c: Config, s: State, images: multiset<Image>, e: Event)
    requires Inv(c, s, images) && Enabled(c, s, e)
    ensures forall q :: 0 <= q < |c.room| ==> QueueOk(c, Do(c, s, e), q)
  {
    forall q | 0 <= q < |c.room| ensures QueueOk(c, Do(c, s, e), q) {
      match e
      case Read(t, mem) => ReadQueues(c, s, images, t, Working(s.unread[0], mem), q);
      case Take(t, mem) => TakeQueues(c, s, images, e, q);
      case Put(t) => PutQueues(c, s, images, e, q);
      case Write(t) => ReadQueues(c, s, images, t, Idle, q);
      case Leave(t) => ReadQueues(c, s, images, t, Leaving, q);
      case End(t) => EndQueues(c, s, images, e, q);
    }
  }

  // Gone consumers.

  lemma TakeGone(c: Config, s: State, images: multiset<Image>, e: Event, t: nat)
    requires Inv(c, s, images) && e.Take? && Enabled(c, s, e) && t < |c.threads|
    ensures GoneOk(c, Do(c, s, e), t)
  {
    GoneAt(c, s, images, t);
    var th := ThreadAt(c, t);
    StatusKeepsEnded(c, s, e.t, Do(c, s, e).status[e.t]);
    hide Inv, Ended;
  }

  lemma PutGone(c: Config, s: State, images: multiset<Image>, e: Event, t: nat)
    requires Inv(c, s, images) && e.Put? && Enabled(c, s, e) && t < |c.threads|
    ensures GoneOk(c, Do(c, s, e), t)
  {
    GoneAt(c, s, images, t);
    var th := ThreadAt(c, t);
    StatusKeepsEnded(c, s, e.t, Idle);
    if Gone(s.status[t]) && th.stage > 0 {
      ClosedHasNoProducer(c, s, th.inq, e.t);
    }
    hide Inv, Ended;
  }

  lemma IdleGone(c: Config, s: State, images: multiset<Image>, r: nat, st: Status, t: nat)
    requires Inv(c, s, images) && r < |c.threads| && t < |c.threads| && s.status[r] != Done && !Gone(st)
    ensures GoneOk(c, s.(status := s.status[r := st]), t)
  {
    GoneAt(c, s, images, t);
    var th := ThreadAt(c, t);
    StatusKeepsEnded(c, s, r, st);
    hide Inv, Ended;
  }

  /** Whoever leaves has seen its queue empty after all producers ended. */
  lemma LeaveGone(c: Config, s: State, images: multiset<Image>, e: Event, t: nat)
    requires Inv(c, s, images) && e.Leave? && Enabled(c, s, e) && t < |c.threads|
    ensures GoneOk(c, Do(c, s, e), t)
  {
    GoneAt(c, s, images, t);
    var th := ThreadAt(c, t);
    StatusKeepsEnded(c, s, e.t, Leaving);
    if t == e.t && th.stage > 0 {
      QueueAt(c, s, images, th.inq);
      AllEnded(c.threads, s.status, th.inq);
    }
    hide Inv, Ended;
  }

  lemma EndGone(c: Config, s: State, images: multiset<Image>, e: Event, t: nat)
    requires Inv(c, s, images) && e.End? && Enabled(c, s, e) && t < |c.threads|
    ensures GoneOk(c, Do(c, s, e), t)
  {
    GoneAt(c, s, images, t);
    var th := ThreadAt(c, t);
    if Gone(s.status[t]) && th.stage > 0 {
      ClosedHasNoProducer(c, s, th.inq, e.t);
      EndedUpdate(c.threads, s.status, th.inq, e.t, Done);
    }
    hide Inv, Ended, Producers;
  }

  lemma StepGone(c: Config, s: State, images: multiset<Image>, e: Event)
    requires Inv(c, s, images) && Enabled(c, s, e)
    ensures forall t :: 0 <= t < |c.threads| ==> GoneOk(c, Do(c, s, e), t)
  {
    forall t | 0 <= t < |c.threads| ensures GoneOk(c, Do(c, s, e), t) {
      match e
      case Read(r, mem) => IdleGone(c, s, images, r, Working(s.unread[0], mem), t);
      case Take(r, mem) => TakeGone(c, s, images, e, t);
      case Put(r) => PutGone(c, s, images, e, t);
      case Write(r) => IdleGone(c, s, images, r, Idle, t);
      case Leave(r) => LeaveGone(c, s, images, e, t);
      case End(r) => EndGone(c, s, images, e, t);
    }
  }

  // Images.

  lemma FirstOut(images: seq<Image>)
    requires images != []
    ensures multiset(images) == multiset{images[0]} + multiset(images[1..])
  {
    assert images == [images[0]] + images[1..];
  }

  /** A step moves the images `x` out of some places and into others. */
  lemma Conserved(a: multiset<Image>, b: multiset<Image>, c: multiset<Image>, d: multiset<Image>,
                  a': multiset<Image>, b': multiset<Image>, c': multiset<Image>, d': multiset<Image>,
                  x: multiset<Image>, y: multiset<Image>)
    requires a' + b' + d' + y == a + b + d + x && c' + x == c + y
    ensures a' + b' + c' + d' == a + b + c + d
  {
    assert a' + b' + c' + d' + (x + y) == (a' + b' + d' + y) + (c' + x);
    assert a + b + c + d + (x + y) == (a + b + d + x) + (c + y);
    Cancel(a' + b' + c' + d', a + b + c + d, x + y);
  }

  lemma Cancel(a: multiset<Image>, b: multiset<Image>, x: multiset<Image>)
    requires a + x == b + x
    ensures a == b
  {
    assert a + x - x == a && b + x - x == b;
  }

  /** Threads swap `Held(s.status[t])` for `Held(st)`; the other places gain and lose the difference. */
  lemma ImagesMoved(s: State, s': State, t: nat, st: Status)
    requires t < |s.status| && s'.status == s.status[t := st]
    requires multiset(s'.unread) + QueueImages(s'.queues) + multiset(s'.output) + Held(st)
          == multiset(s.unread) + QueueImages(s.queues) + multiset(s.output) + Held(s.status[t])
    ensures AllImages(s') == AllImages(s)
  {
    ThreadImagesUpdate(s.status, t, st);
    hide QueueImages, ThreadImages, Held;
    Conserved(multiset(s.unread), QueueImages(s.queues), ThreadImages(s.status), multiset(s.output),
              multiset(s'.unread), QueueImages(s'.queues), ThreadImages(s'.status), multiset(s'.output),
              Held(s.status[t]), Held(st));
  }

  lemma ReadImages(c: Config, s: State, e: Event)
    requires Wired(c) && Shaped(c, s) && e.Read? && Enabled(c, s, e)
    ensures AllImages(Do(c, s, e)) == AllImages(s)
  {
    FirstOut(s.unread);
    hide QueueImages, AllImages;
    var q, o := QueueImages(s.queues), multiset(s.output);
    assert multiset(s.unread[1..]) + q + o + multiset{s.unread[0]} == multiset{s.unread[0]} + multiset(s.unread[1..]) + q + o + multiset{};
    ImagesMoved(s, Do(c, s, e), e.t, Working(s.unread[0], e.mem));
  }

  lemma TakeImages(c: Config, s: State, e: Event)
    requires Wired(c) && Shaped(c, s) && e.Take? && Enabled(c, s, e)
    ensures AllImages(Do(c, s, e)) == AllImages(s)
  {
    var i := ThreadAt(c, e.t).inq;
    var items := s.queues[i].items;
    QueueImagesUpdate(s.queues, i, Dequeue(s.queues[i]));
    hide QueueImages, AllImages;
    var q, q' := QueueImages(s.queues), QueueImages(s.queues[i := Dequeue(s.queues[i])]);
    var x := multiset{items[0].image};
    TakenOut(q, q', x, ItemImages(items[1..]));
    var u, o := multiset(s.unread), multiset(s.output);
    assert u + q' + o + x == u + (q' + x) + o + multiset{};
    ImagesMoved(s, Do(c, s, e), e.t, Working(items[0].image, e.mem));
  }

  lemma TakenOut(q: multiset<Image>, q': multiset<Image>, x: multiset<Image>, rest: multiset<Image>)
    requires q' + (x + rest) == q + rest
    ensures q' + x == q
  {
    assert q' + x + rest == q + rest;
    Cancel(q' + x, q, rest);
  }

  lemma PutImages(c: Config, s: State, e: Event)
    requires Wired(c) && Shaped(c, s) && e.Put? && Enabled(c, s, e)
    ensures AllImages(Do(c, s, e)) == AllImages(s)
  {
    var i := ThreadAt(c, e.t).outq;
    var items := s.queues[i].items;
    var item := Item(s.status[e.t].image, s.status[e.t].mem);
    QueueImagesUpdate(s.queues, i, Enqueue(s.queues[i], item));
    ItemImagesAppend(items, item);
    hide QueueImages, AllImages, ItemImages;
    var q, q' := QueueImages(s.queues), QueueImages(s.queues[i := Enqueue(s.queues[i], item)]);
    var x := multiset{item.image};
    PutIn(q, q', x, ItemImages(items));
    var u, o := multiset(s.unread), multiset(s.output);
    assert u + (q + x) + o + multiset{} == u + q + o + x;
    ImagesMoved(s, Do(c, s, e), e.t, Idle);
  }

  lemma PutIn(q: multiset<Image>, q': multiset<Image>, x: multiset<Image>, items: multiset<Image>)
    requires q' + items == q + (items + x)
    ensures q' == q + x
  {
    assert q + (items + x) == q + x + items;
    Cancel(q', q + x, items);
  }

  lemma WriteImages(c: Config, s: State, e: Event)
    requires Wired(c) && Shaped(c, s) && e.Write? && Enabled(c, s, e)
    ensures AllImages(Do(c, s, e)) == AllImages(s)
  {
    hide QueueImages, AllImages;
    var u, q, o := multiset(s.unread), QueueImages(s.queues), multiset(s.output);
    var x := multiset{s.status[e.t].image};
    assert multiset(s.output + [s.status[e.t].image]) == o + x;
    assert u + q + (o + x) + multiset{} == u + q + o + x;
    ImagesMoved(s, Do(c, s, e), e.t, Idle);
  }

  lemma LeaveImages(c: Config, s: State, e: Event)
    requires Wired(c) && Shaped(c, s) && e.Leave? && Enabled(c, s, e)
    ensures AllImages(Do(c, s, e)) == AllImages(s)
  {
    hide QueueImages, AllImages;
    ImagesMoved(s, Do(c, s, e), e.t, Leaving);
  }

  lemma AnnounceImages(queues: seq<Queue>, i: nat)
    requires i < |queues|
    ensures QueueImages(queues[i := Announce(queues[i])]) == QueueImages(queues)
  {
    hide QueueImages, ItemImages;
    QueueImagesUpdate(queues, i, Announce(queues[i]));
    Cancel(QueueImages(queues[i := Announce(queues[i])]), QueueImages(queues), ItemImages(queues[i].items));
  }

  lemma EndImages(c: Config, s: State, e: Event)
    requires Wired(c) && Shaped(c, s) && e.End? && Enabled(c, s, e)
    ensures AllImages(Do(c, s, e)) == AllImages(s)
  {
    hide QueueImages, AllImages, ItemImages;
    var th := ThreadAt(c, e.t);
    if th.stage < LAST {
      AnnounceImages(s.queues, th.outq);
    }
    ImagesMoved(s, Do(c, s, e), e.t, Done);
  }

  lemma StepImages(c: Config, s: State, e: Event)
    requires Wired(c) && Shaped(c, s) && Enabled(c, s, e)
    ensures AllImages(Do(c, s, e)) == AllImages(s)
  {
    hide *;
    match e
    case Read(t, mem) => ReadImages(c, s, e);
    case Take(t, mem) => TakeImages(c, s, e);
    case Put(t) => PutImages(c, s, e);
    case Write(t) => WriteImages(c, s, e);
    case Leave(t) => LeaveImages(c, s, e);
    case End(t) => EndImages(c, s, e);
  }

  /** Every step of every thread keeps the invariant. */
  lemma StepKeepsInv(c: Config, s: State, images: multiset<Image>, e: Event)
    requires Inv(c, s, images) && Enabled(c, s, e)
    ensures Inv(c, Do(c, s, e), images)
  {
    hide QueueOk, GoneOk, AllImages, Do, Enabled;
    StepQueues(c, s, images, e);
    StepGone(c, s, images, e);
    StepImages(c, s, e);
  }

  // ---------------------------------------------------------------- runs

  /** A run of the pipeline: each event is enabled where it happens. */
  ghost predicate Legal(c: Config, s: State, events: seq<Event>)
    requires Connected(c) && Shaped(c, s)
    decreases |events|
  {
    events == [] || (Enabled(c, s, events[0]) && Legal(c, Do(c, s, events[0]), events[1..]))
  }

  ghost function After(c: Config, s: State, events: seq<Event>): (s': State)
    requires Connected(c) && Shaped(c, s) && Legal(c, s, events)
    ensures Shaped(c, s')
    decreases |events|
  {
    if events == [] then s else After(c, Do(c, s, events[0]), events[1..])
  }

  lemma {:induction false} RunKeepsInv(c: Config, s: State, images: multiset<Image>, events: seq<Event>)
    requires Inv(c, s, images) && Legal(c, s, events)
    ensures Inv(c, After(c, s, events), images)
    decreases |events|
  {
    hide Inv, Do, Enabled;
    InvShape(c, s, images);
    if events != [] {
      StepKeepsInv(c, s, images, events[0]);
      InvShape(c, Do(c, s, events[0]), images);
      RunKeepsInv(c, Do(c, s, events[0]), images, events[1..]);
    }
  }

  lemma InvShape(c: Config, s: State, images: multiset<Image>)
    requires Inv(c, s, images)
    ensures Wired(c) && Shaped(c, s)
  {
  }

  lemma {:induction false} NoneEnded(threads: seq<Thread>, status: seq<Status>, q: nat)
    requires |threads| == |status| && forall t :: 0 <= t < |status| ==> status[t] == Idle
    ensures Ended(threads, status, q) == 0
  {
    if threads != [] { NoneEnded(threads[..|threads| - 1], status[..|threads| - 1], q); }
  }

  lemma {:induction false} EmptyQueues(queues: seq<Queue>)
    requires forall i :: 0 <= i < |queues| ==> queues[i].items == []
    ensures QueueImages(queues) == multiset{}
  {
    if queues != [] { EmptyQueues(queues[..|queues| - 1]); }
  }

  lemma {:induction false} NothingHeld(status: seq<Status>)
    requires forall t :: 0 <= t < |status| ==> !status[t].Working?
    ensures ThreadImages(status) == multiset{}
  {
    if status != [] { NothingHeld(status[..|status| - 1]); }
  }

  lemma InitInv(c: Config, images: seq<Image>)
    requires Wired(c)
    ensures Inv(c, Init(c, images), multiset(images))
  {
    var s := Init(c, images);
    EmptyQueues(s.queues);
    NothingHeld(s.status);
    hide Ended, QueueImages, ThreadImages, Wired;
    forall q | 0 <= q < |c.room| ensures QueueOk(c, s, q) {
      NoneEnded(c.threads, s.status, q);
    }
    assert forall t :: 0 <= t < |s.status| ==> !Gone(s.status[t]);
    assert multiset(images) + multiset{} + multiset{} + multiset([]) == multiset(images);
  }

  predicate AllDone(s: State) {
    forall t :: 0 <= t < |s.status| ==> s.status[t] == Done
  }

  /**
    * Safety of every run: each queue's free room and load add up to what it began with, each image is in exactly one
    * place as often as it was given, and when all threads have ended every queue is empty and every image that was
    * read has been written exactly once.
    */
  lemma RunIsSafe(c: Config, images: seq<Image>, events: seq<Event>)
    requires Wired(c) && Legal(c, Init(c, images), events)
    ensures var s := After(c, Init(c, images), events);
            && (forall q :: 0 <= q < |c.room| ==>
                  0 <= s.queues[q].size && s.queues[q].size + Used(s.queues[q].items) == c.room[q])
            && AllImages(s) == multiset(images)
            && (AllDone(s) ==>
                  && (forall q :: 0 <= q < |c.room| ==> s.queues[q].items == [])
                  && multiset(s.unread) + multiset(s.output) == multiset(images))
  {
    InitInv(c, images);
    RunKeepsInv(c, Init(c, images), multiset(images), events);
    var s := After(c, Init(c, images), events);
    hide Legal, After, Init;
    SafeState(c, s, multiset(images));
    if AllDone(s) { DoneState(c, s, multiset(images)); }
  }

  lemma SafeState(c: Config, s: State, images: multiset<Image>)
    requires Inv(c, s, images)
    ensures forall q :: 0 <= q < |c.room| ==>
              0 <= s.queues[q].size && s.queues[q].size + Used(s.queues[q].items) == c.room[q]
    ensures AllImages(s) == images
  {
    hide Used, AllImages, Ended, Wired;
    forall q | 0 <= q < |c.room|
      ensures 0 <= s.queues[q].size && s.queues[q].size + Used(s.queues[q].items) == c.room[q]
    {
      assert QueueOk(c, s, q);
    }
  }

  lemma DoneState(c: Config, s: State, images: multiset<Image>)
    requires Inv(c, s, images) && AllDone(s)
    ensures forall q :: 0 <= q < |c.room| ==> s.queues[q].items == []
    ensures multiset(s.unread) + multiset(s.output) == images
  {
    forall q | 0 <= q < |c.room| ensures s.queues[q].items == [] {
      QueueAt(c, s, images, q);
      GoneAt(c, s, images, c.consumer[q]);
    }
    EmptyQueues(s.queues);
    NothingHeld(s.status);
    assert AllImages(s) == multiset(s.unread) + multiset{} + multiset{} + multiset(s.output);
  }

  // ---------------------------------------------------------------- progress

  /** A thread's work fits the queue it goes to, when that is empty. */
  ghost predicate WorkFits(c: Config, s: State, t: nat)
    requires Wired(c) && Shaped(c, s) && t < |c.threads|
  {
    var th := ThreadAt(c, t);
    s.status[t].Working? && th.stage < LAST ==> s.status[t].mem <= c.room[th.outq]
  }

  ghost predicate AllFit(c: Config, s: State)
    requires Wired(c) && Shaped(c, s)
  {
    forall t :: 0 <= t < |c.threads| ==> WorkFits(c, s, t)
  }

  lemma UsedNothing(items: seq<Item>)
    ensures items == [] ==> Used(items) == 0
  {
  }

  lemma ConsumerAt(c: Config, s: State, images: multiset<Image>, q: nat)
    requires Inv(c, s, images) && q < |c.room|
    ensures c.consumer[q] < |c.threads| && ThreadAt(c, c.consumer[q]).stage == c.qstage[q] + 1
    ensures ThreadAt(c, c.consumer[q]).inq == q
    ensures Gone(s.status[c.consumer[q]]) ==> s.queues[q].items == []
    ensures s.queues[q].size + Used(s.queues[q].items) == c.room[q]
  {
    QueueAt(c, s, images, q);
    GoneAt(c, s, images, c.consumer[q]);
    hide Ended, Used, Producers;
  }

  /** Some thread at or after one that is at work can move: it, or the consumer of the full queue before it. */
  lemma {:induction false} WorkMoves(c: Config, s: State, images: multiset<Image>, t: nat) returns (e: Event)
    requires Inv(c, s, images) && AllFit(c, s) && t < |c.threads| && s.status[t].Working?
    ensures Enabled(c, s, e)
    decreases LAST - ThreadAt(c, t).stage
  {
    var th := ThreadAt(c, t);
    if th.stage == LAST {
      e := Write(t);
    } else if s.queues[th.outq].size >= s.status[t].mem {
      e := Put(t);
    } else {
      var q := th.outq;
      assert WorkFits(c, s, t);
      UsedNothing(s.queues[q].items);
      ConsumerAt(c, s, images, q);
      var t2 := c.consumer[q];
      hide Inv, Used;
      if s.status[t2] == Idle {
        e := Take(t2, 0);
      } else {
        e := WorkMoves(c, s, images, t2);
      }
    }
  }

  /** With nobody at work, some waiting thread can take an image or leave. */
  lemma {:induction false} IdleMoves(c: Config, s: State, images: multiset<Image>, t: nat) returns (e: Event)
    requires Inv(c, s, images) && t < |c.threads| && s.status[t] == Idle
    requires forall r :: 0 <= r < |s.status| ==> s.status[r] == Idle || s.status[r] == Done
    ensures Enabled(c, s, e)
    decreases ThreadAt(c, t).stage
  {
    var th := ThreadAt(c, t);
    var q := th.inq;
    if th.stage == 0 {
      e := Leave(t);
    } else if s.queues[q].items != [] {
      e := Take(t, 0);
    } else if r :| 0 <= r < |c.threads| && Produces(c.threads[r], q) && s.status[r] != Done {
      assert ThreadAt(c, r).stage == c.qstage[q];
      e := IdleMoves(c, s, images, r);
    } else {
      QueueAt(c, s, images, q);
      AllEnded(c.threads, s.status, q);
      hide Ended, Producers;
      e := Leave(t);
    }
  }

  /** As long as a thread has not ended, and every image's load fits an empty queue, some step is enabled. */
  lemma NoDeadlock(c: Config, s: State, images: multiset<Image>) returns (e: Event)
    requires Inv(c, s, images) && AllFit(c, s) && !AllDone(s)
    ensures Enabled(c, s, e)
  {
    hide AllFit, QueueOk, GoneOk;
    if t :| 0 <= t < |s.status| && s.status[t].Working? {
      e := WorkMoves(c, s, images, t);
    } else if t :| 0 <= t < |s.status| && s.status[t] == Leaving {
      e := End(t);
    } else {
      var t :| 0 <= t < |s.status| && s.status[t] != Done;
      e := IdleMoves(c, s, images, t);
    }
  }

  /** How far an image at work at a stage, or queued after one, still is from being written. */
  function ToGo(stage: nat): nat {
    if stage <= LAST then 2 * (LAST - stage) + 1 else 1
  }

  function StatusRank(st: Status, stage: nat): nat {
    match st
    case Idle => 2
    case Working(_, _) => 2 + ToGo(stage)
    case Leaving => 1
    case Done => 0
  }

  function ThreadsRank(threads: seq<Thread>, status: seq<Status>): nat
    requires |threads| == |status|
  {
    if threads == [] then 0 else
      var n := |threads| - 1;
      ThreadsRank(threads[..n], status[..n]) + StatusRank(status[n], threads[n].stage)
  }

  function QueueRank(stage: nat, n: nat): nat {
    if n == 0 then 0 else QueueRank(stage, n - 1) + (ToGo(stage) - 1)
  }

  function QueuesRank(qstage: seq<nat>, queues: seq<Queue>): nat
    requires |qstage| == |queues|
  {
    if queues == [] then 0 else
      var n := |queues| - 1;
      QueuesRank(qstage[..n], queues[..n]) + QueueRank(qstage[n], |queues[n].items|)
  }

  const UNREAD: nat := 2 * LAST + 2

  function Rank(c: Config, s: State): nat
    requires Shaped(c, s) && |c.qstage| == |c.room|
  {
    UNREAD * |s.unread| + QueuesRank(c.qstage, s.queues) + ThreadsRank(c.threads, s.status)
  }

  lemma {:induction false} ThreadsRankUpdate(threads: seq<Thread>, status: seq<Status>, t: nat, st: Status)
    requires |threads| == |status| && t < |status|
    ensures ThreadsRank(threads, status[t := st])
         == ThreadsRank(threads, status) - StatusRank(status[t], threads[t].stage) + StatusRank(st, threads[t].stage)
  {
    hide StatusRank;
    var n := |threads| - 1;
    if t < n {
      ThreadsRankUpdate(threads[..n], status[..n], t, st);
      assert status[t := st][..n] == status[..n][t := st];
    } else {
      assert status[t := st][..n] == status[..n];
    }
  }

  lemma {:induction false} QueuesRankUpdate(qstage: seq<nat>, queues: seq<Queue>, i: nat, q: Queue)
    requires |qstage| == |queues| && i < |queues|
    ensures QueuesRank(qstage, queues[i := q])
         == QueuesRank(qstage, queues) - QueueRank(qstage[i], |queues[i].items|) + QueueRank(qstage[i], |q.items|)
  {
    hide QueueRank;
    var n := |queues| - 1;
    if i < n {
      QueuesRankUpdate(qstage[..n], queues[..n], i, q);
      assert queues[i := q][..n] == queues[..n][i := q];
    } else {
      assert queues[i := q][..n] == queues[..n];
    }
  }

  lemma QueueRankStep(stage: nat, n: nat)
    ensures QueueRank(stage, n + 1) == QueueRank(stage, n) + (ToGo(stage) - 1)
  {
  }

  /** Every step brings the end nearer. */
  lemma StepLowersRank(c: Config, s: State, e: Event)
    requires Wired(c) && Shaped(c, s) && Enabled(c, s, e)
    ensures Rank(c, Do(c, s, e)) < Rank(c, s)
  {
    hide ThreadsRank, QueuesRank, QueueRank;
    var th := ThreadAt(c, e.t);
    var s' := Do(c, s, e);
    ThreadsRankUpdate(c.threads, s.status, e.t, s'.status[e.t]);
    match e
    case Read(t, mem) =>
    case Take(t, mem) =>
      QueuesRankUpdate(c.qstage, s.queues, th.inq, Dequeue(s.queues[th.inq]));
      QueueRankStep(c.qstage[th.inq], |s.queues[th.inq].items| - 1);
    case Put(t) =>
      QueuesRankUpdate(c.qstage, s.queues, th.outq, s'.queues[th.outq]);
      QueueRankStep(c.qstage[th.outq], |s.queues[th.outq].items|);
    case Write(t) =>
    case Leave(t) =>
    case End(t) =>
      if th.stage < LAST { QueuesRankUpdate(c.qstage, s.queues, th.outq, Announce(s.queues[th.outq])); }
  }

  lemma {:induction false} RunLowersRank(c: Config, s: State, events: seq<Event>)
    requires Wired(c) && Shaped(c, s) && Legal(c, s, events)
    ensures |events| + Rank(c, After(c, s, events)) <= Rank(c, s)
    decreases |events|
  {
    hide Rank, Do, Enabled;
    if events != [] {
      StepLowersRank(c, s, events[0]);
      RunLowersRank(c, Do(c, s, events[0]), events[1..]);
    }
  }

  lemma {:induction false} InitThreadsRank(threads: seq<Thread>, status: seq<Status>)
    requires |threads| == |status| && forall t :: 0 <= t < |status| ==> status[t] == Idle
    ensures ThreadsRank(threads, status) == 2 * |threads|
  {
    if threads != [] { InitThreadsRank(threads[..|threads| - 1], status[..|threads| - 1]); }
  }

  lemma {:induction false} InitQueuesRank(qstage: seq<nat>, queues: seq<Queue>)
    requires |qstage| == |queues| && forall i :: 0 <= i < |queues| ==> queues[i].items == []
    ensures QueuesRank(qstage, queues) == 0
  {
    if queues != [] { InitQueuesRank(qstage[..|queues| - 1], queues[..|queues| - 1]); }
  }

  /** The load that an event charges fits an empty queue. */
  ghost predicate EventFits(c: Config, e: Event)
    requires Wired(c)
  {
    e.t < |c.threads| &&
    var th := ThreadAt(c, e.t);
    match e
    case Read(t, mem) => th.stage < LAST ==> mem <= c.room[th.outq]
    case Take(t, mem) => th.stage < LAST ==> mem <= c.room[th.outq]
    case _ => true
  }

  lemma StepKeepsFit(c: Config, s: State, e: Event)
    requires Wired(c) && Shaped(c, s) && AllFit(c, s) && Enabled(c, s, e) && EventFits(c, e)
    ensures AllFit(c, Do(c, s, e))
  {
    var s' := Do(c, s, e);
    forall t | 0 <= t < |c.threads| ensures WorkFits(c, s', t) {
      assert WorkFits(c, s, t);
    }
  }

  lemma {:induction false} RunKeepsFit(c: Config, s: State, events: seq<Event>)
    requires Wired(c) && Shaped(c, s) && AllFit(c, s) && Legal(c, s, events)
    requires forall i :: 0 <= i < |events| ==> EventFits(c, events[i])
    ensures AllFit(c, After(c, s, events))
    decreases |events|
  {
    hide AllFit, Do, Enabled, EventFits;
    if events != [] {
      StepKeepsFit(c, s, events[0]);
      RunKeepsFit(c, Do(c, s, events[0]), events[1..]);
    }
  }

  /**
    * Progress of every run: it has at most 14 steps an image and 2 a thread, and as long as every load fits an empty
    * queue it can go on until all threads have ended.
    */
  lemma RunComesToEnd(c: Config, images: seq<Image>, events: seq<Event>)
    requires Wired(c) && Legal(c, Init(c, images), events)
    ensures |events| <= 14 * |images| + 2 * |c.threads|
    ensures (forall i :: 0 <= i < |events| ==> EventFits(c, events[i])) ==>
              var s := After(c, Init(c, images), events);
              AllDone(s) || exists e :: Enabled(c, s, e)
  {
    hide *;
    var s0 := Init(c, images);
    RankOfInit(c, images);
    InitInv(c, images);
    InvShape(c, s0, multiset(images));
    RunLowersRank(c, s0, events);
    if forall i :: 0 <= i < |events| ==> EventFits(c, events[i]) {
      RunKeepsInv(c, s0, multiset(images), events);
      InitFits(c, images);
      RunKeepsFit(c, s0, events);
      var s := After(c, s0, events);
      if !AllDone(s) {
        var e := NoDeadlock(c, s, multiset(images));
      }
    }
  }

  lemma RankOfInit(c: Config, images: seq<Image>)
    requires Wired(c)
    ensures Shaped(c, Init(c, images)) && |c.qstage| == |c.room|
    ensures Rank(c, Init(c, images)) == 14 * |images| + 2 * |c.threads|
  {
    var s0 := Init(c, images);
    InitThreadsRank(c.threads, s0.status);
    InitQueuesRank(c.qstage, s0.queues);
    hide ThreadsRank, QueuesRank;
  }

  lemma InitFits(c: Config, images: seq<Image>)
    requires Wired(c)
    ensures AllFit(c, Init(c, images))
  {
    hide Wired;
    forall t | 0 <= t < |c.threads| ensures WorkFits(c, Init(c, images), t) {
    }
  }

  // ---------------------------------------------------------------- the program's own wiring

  const RAW: nat := 0
  const DEC: nat := 1

  function Dup(m: nat): nat { 2 + 2 * m }

  function Rej(m: nat): nat { 3 + 2 * m }

  function Many(n: nat, t: Thread): (r: seq<Thread>)
    ensures |r| == n
  {
    seq(n, _ => t)
  }

  function Detectors(m: nat): (r: seq<Thread>)
    ensures |r| == m
  {
    seq(m, i requires 0 <= i < m => Thread(2, DEC, 2 + i))
  }

  function Indexers(m: nat): (r: seq<Thread>)
    ensures |r| == m
  {
    seq(m, i requires 0 <= i < m => Thread(3, 2 + i, 2 + m + i))
  }

  function Dedupers(m: nat): (r: seq<Thread>)
    ensures |r| == m
  {
    seq(m, i requires 0 <= i < m => Thread(4, 2 + m + i, Dup(m)))
  }

  /** Threads as they are started: readers, decoders, detectors, indexers, delta coders, literal coders, writers. */
  function Threads(r: nat, d: nat, m: nat, j: nat, w: nat): (ts: seq<Thread>)
    ensures |ts| == r + d + 3 * m + j + w
  {
    Many(r, Thread(0, 0, RAW)) + Many(d, Thread(1, RAW, DEC)) + Detectors(m) + Indexers(m) + Dedupers(m)
    + Many(j, Thread(5, Dup(m), Rej(m))) + Many(w, Thread(6, Rej(m), 0))
  }

  /** The room in a queue: the lists of the middle threads share what they are given. */
  function Room(q: nat, m: nat, lists: seq<nat>): nat
    requires |lists| == 6 && m > 0
  {
    if q == RAW then lists[0] else if q == DEC then lists[1]
    else if q < 2 + m then lists[2] / m else if q < 2 + 2 * m then lists[3] / m
    else if q == Dup(m) then lists[4] else lists[5]
  }

  function QueueStage(q: nat, m: nat): nat {
    if q <= 1 then q else if q < 2 + m then 2 else if q < 2 + 2 * m then 3 else if q == Dup(m) then 4 else 5
  }

  function Consumer(q: nat, r: nat, d: nat, m: nat, j: nat): nat {
    if q == RAW then r else if q == DEC then r + d
    else if q < 2 + m then r + d + m + (q - 2)
    else if q < 2 + 2 * m then r + d + 2 * m + (q - 2 - m)
    else if q == Dup(m) then r + d + 3 * m else r + d + 3 * m + j
  }

  /** The delta compression pipeline; each middle thread has a detector list and an index list of its own. */
  function Idelta(r: nat, d: nat, m: nat, j: nat, w: nat, lists: seq<nat>): Config
    requires |lists| == 6 && m > 0
  {
    var n := 4 + 2 * m;
    Config(Threads(r, d, m, j, w), seq(n, q requires 0 <= q < n => Room(q, m, lists)),
           seq(n, q requires 0 <= q < n => QueueStage(q, m)), seq(n, q requires 0 <= q < n => Consumer(q, r, d, m, j)),
           seq(n, q => 2 <= q < 2 + 2 * m))
  }

  lemma {:induction false} ProducersAppend(a: seq<Thread>, b: seq<Thread>, q: nat)
    ensures Producers(a + b, q) == Producers(a, q) + Producers(b, q)
  {
    if b == [] {
      assert a + b == a;
    } else {
      ProducersAppend(a, b[..|b| - 1], q);
      assert (a + b)[..|a + b| - 1] == a + b[..|b| - 1];
    }
  }

  lemma {:induction false} ProducersMany(n: nat, t: Thread, q: nat)
    ensures Producers(Many(n, t), q) == if Produces(t, q) then n else 0
  {
    if n > 0 {
      ProducersMany(n - 1, t, q);
      assert Many(n, t)[..n - 1] == Many(n - 1, t);
    }
  }

  /** Distinct out-queues in a row: each is produced once. */
  lemma {:induction false} ProducersRow(ts: seq<Thread>, base: nat, q: nat)
    requires forall i :: 0 <= i < |ts| ==> ts[i].stage < LAST && ts[i].outq == base + i
    ensures Producers(ts, q) == if base <= q < base + |ts| then 1 else 0
  {
    if ts != [] { ProducersRow(ts[..|ts| - 1], base, q); }
  }

  lemma {:induction false} ProducersSame(ts: seq<Thread>, out: nat, q: nat)
    requires forall i :: 0 <= i < |ts| ==> ts[i].stage < LAST && ts[i].outq == out
    ensures Producers(ts, q) == if q == out then |ts| else 0
  {
    if ts != [] { ProducersSame(ts[..|ts| - 1], out, q); }
  }

  lemma ProducersOf(r: nat, d: nat, m: nat, j: nat, w: nat, q: nat)
    ensures Producers(Threads(r, d, m, j, w), q) ==
            if q == RAW then r else if q == DEC then d else if q < 2 + 2 * m then 1
            else if q == Dup(m) then m else if q == Rej(m) then j else 0
  {
    hide Producers, Many, Threads;
    var a, b := Many(r, Thread(0, 0, RAW)), Many(d, Thread(1, RAW, DEC));
    var e, f := Many(j, Thread(5, Dup(m), Rej(m))), Many(w, Thread(6, Rej(m), 0));
    ProducersMany(r, Thread(0, 0, RAW), q);
    ProducersMany(d, Thread(1, RAW, DEC), q);
    ProducersRow(Detectors(m), 2, q);
    ProducersRow(Indexers(m), 2 + m, q);
    ProducersSame(Dedupers(m), Dup(m), q);
    ProducersMany(j, Thread(5, Dup(m), Rej(m)), q);
    ProducersMany(w, Thread(6, Rej(m), 0), q);
    hide Detectors, Indexers, Dedupers;
    ProducersAppend(a, b, q);
    ProducersAppend(a + b, Detectors(m), q);
    ProducersAppend(a + b + Detectors(m), Indexers(m), q);
    ProducersAppend(a + b + Detectors(m) + Indexers(m), Dedupers(m), q);
    ProducersAppend(a + b + Detectors(m) + Indexers(m) + Dedupers(m), e, q);
    ProducersAppend(a + b + Detectors(m) + Indexers(m) + Dedupers(m) + e, f, q);
    ThreadsAre(r, d, m, j, w);
  }

  lemma ThreadsAre(r: nat, d: nat, m: nat, j: nat, w: nat)
    ensures Threads(r, d, m, j, w)
         == Many(r, Thread(0, 0, RAW)) + Many(d, Thread(1, RAW, DEC)) + Detectors(m) + Indexers(m) + Dedupers(m)
            + Many(j, Thread(5, Dup(m), Rej(m))) + Many(w, Thread(6, Rej(m), 0))
  {
  }

  lemma ThreadNumbered(r: nat, d: nat, m: nat, j: nat, w: nat, t: nat)
    requires t < r + d + 3 * m + j + w
    ensures Threads(r, d, m, j, w)[t] ==
            if t < r then Thread(0, 0, RAW)
            else if t < r + d then Thread(1, RAW, DEC)
            else if t < r + d + m then Thread(2, DEC, 2 + (t - r - d))
            else if t < r + d + 2 * m then Thread(3, 2 + (t - r - d - m), 2 + m + (t - r - d - m))
            else if t < r + d + 3 * m then Thread(4, 2 + m + (t - r - d - 2 * m), Dup(m))
            else if t < r + d + 3 * m + j then Thread(5, Dup(m), Rej(m))
            else Thread(6, Rej(m), 0)
  {
  }

  /** With a thread or more a stage, the program's queues lead from stage to stage. */
  lemma IdeltaIsConnected(r: nat, d: nat, m: nat, j: nat, w: nat, lists: seq<nat>)
    requires |lists| == 6 && 1 <= r && 1 <= d && 1 <= m && 1 <= j && 1 <= w
    ensures Connected(Idelta(r, d, m, j, w, lists))
  {
    var c := Idelta(r, d, m, j, w, lists);
    hide Threads, Room;
    forall t | 0 <= t < |c.threads| ensures WiredThread(c, c.threads[t]) {
      ThreadNumbered(r, d, m, j, w, t);
    }
    forall q | 0 <= q < |c.room| ensures HasConsumer(c, q) {
      ThreadNumbered(r, d, m, j, w, Consumer(q, r, d, m, j));
    }
  }

  /** The program's wiring is one the results above are about, for 1 to 255 threads a stage. */
  lemma IdeltaIsWired(r: nat, d: nat, m: nat, j: nat, w: nat, lists: seq<nat>)
    requires |lists| == 6 && 1 <= r < 256 && 1 <= d < 256 && 1 <= m < 256 && 1 <= j < 256 && 1 <= w
    ensures Wired(Idelta(r, d, m, j, w, lists))
  {
    var c := Idelta(r, d, m, j, w, lists);
    hide Threads, Room, Connected;
    IdeltaIsConnected(r, d, m, j, w, lists);
    forall q | 0 <= q < |c.room| ensures Countable(c, q) {
      ProducersOf(r, d, m, j, w, q);
    }
  }

  // ---------------------------------------------------------------- too many producers

  /** The count is short of the producers, and no consumer of the queue has left. */
  ghost predicate Waiting(c: Config, s: State, q: nat)
    requires Connected(c) && Shaped(c, s) && q < |c.room|
  {
    && s.queues[q].ending < 256
    && forall t :: 0 <= t < |c.threads| && c.threads[t].stage > 0 && c.threads[t].inq == q ==> !Gone(s.status[t])
  }

  lemma StepKeepsWaiting(c: Config, s: State, e: Event, q: nat)
    requires Connected(c) && Shaped(c, s) && Enabled(c, s, e)
    requires q < |c.room| && !c.anyEnd[q] && Producers(c.threads, q) >= 256 && Waiting(c, s, q)
    ensures Waiting(c, Do(c, s, e), q)
  {
    hide Producers;
    var th := ThreadAt(c, e.t);
  }

  lemma {:induction false} RunKeepsWaiting(c: Config, s: State, events: seq<Event>, q: nat)
    requires Connected(c) && Shaped(c, s) && Legal(c, s, events)
    requires q < |c.room| && |c.anyEnd| == |c.room| && !c.anyEnd[q] && Producers(c.threads, q) >= 256 && Waiting(c, s, q)
    ensures Waiting(c, After(c, s, events), q)
    decreases |events|
  {
    hide Do, Enabled, Waiting, Producers;
    if events != [] {
      StepKeepsWaiting(c, s, events[0], q);
      RunKeepsWaiting(c, Do(c, s, events[0]), events[1..], q);
    }
  }

  /**
    * A queue with 256 producers or more never ends, whatever the threads do: the 8-bit count does not reach them, so its
    * consumers do not leave, and no run comes to the end of all threads.
    */
  lemma CrowdedQueueNeverOver(c: Config, images: seq<Image>, events: seq<Event>, q: nat)
    requires Connected(c) && Legal(c, Init(c, images), events)
    requires q < |c.room| && |c.anyEnd| == |c.room| && !c.anyEnd[q] && Producers(c.threads, q) >= 256
    ensures var s := After(c, Init(c, images), events);
            && !Over(c, s.queues[q], q) && !AllDone(s)
            && forall t :: 0 <= t < |c.threads| && c.threads[t].stage > 0 && c.threads[t].inq == q ==> !Gone(s.status[t])
  {
    RunKeepsWaiting(c, Init(c, images), events, q);
    hide Producers, Legal, After;
    assert HasConsumer(c, q);
  }

  /** A stage whose threads share a queue that they all put to, and in which one end does not suffice. */
  function CrowdedQueue(r: nat, d: nat, m: nat, j: nat): (q: nat)
    requires r >= 256 || d >= 256 || m >= 256 || j >= 256
  {
    if r >= 256 then RAW else if d >= 256 then DEC else if m >= 256 then Dup(m) else Rej(m)
  }

  /** So with 256 readers, decoders, middle threads or literal coders no run of the program comes to its end. */
  lemma CrowdedIdelta(r: nat, d: nat, m: nat, j: nat, w: nat, lists: seq<nat>, images: seq<Image>, events: seq<Event>)
    requires |lists| == 6 && 1 <= r && 1 <= d && 1 <= m && 1 <= j && 1 <= w
    requires r >= 256 || d >= 256 || m >= 256 || j >= 256
    requires var c := Idelta(r, d, m, j, w, lists); Connected(c) && Legal(c, Init(c, images), events)
    ensures !AllDone(After(Idelta(r, d, m, j, w, lists), Init(Idelta(r, d, m, j, w, lists), images), events))
  {
    var c := Idelta(r, d, m, j, w, lists);
    hide Threads, Room, Legal, After, Connected, Init, Producers;
    var q := CrowdedQueue(r, d, m, j);
    ProducersOf(r, d, m, j, w, q);
    CrowdedQueueNeverOver(c, images, events, q);
  }
}
