/** The bounded drop-oldest queue shared by the gateway's emitter and the console's batcher, with
  * the full record of what entered and what left it. */
module DropOldest {
  import opened Wrappers

  /** How an item left the queue: handed to the consumer, or dropped to make room. */
  datatype Removal<+T> = Taken(item: T) | Dropped(item: T)

  /** `cap` is the maxsize of the asyncio queue; zero or less means unbounded. */
  datatype Log<+T> = Log(cap: int, queue: seq<T>, enqueued: seq<T>, removed: seq<Removal<T>>)

  function Empty<T>(cap: int): Log<T> {
    Log(cap, [], [], [])
  }

  predicate Full<T>(cap: int, queue: seq<T>) {
    cap > 0 && |queue| >= cap
  }

  /** Put; when full, drop the oldest and put again; when still full, drop the new item. */
  function Enqueue<T>(l: Log<T>, x: T): Log<T> {
    var arrived := l.(enqueued := l.enqueued + [x]);
    if !Full(l.cap, l.queue) then arrived.(queue := l.queue + [x])
    else if !Full(l.cap, l.queue[1..]) then
      arrived.(queue := l.queue[1..] + [x], removed := l.removed + [Dropped(l.queue[0])])
    else arrived.(queue := l.queue[1..], removed := l.removed + [Dropped(l.queue[0]), Dropped(x)])
  }

  /** Take the oldest item, if there is one. */
  function TakeOne<T>(l: Log<T>): Log<T> {
    if l.queue == [] then l
    else l.(queue := l.queue[1..], removed := l.removed + [Taken(l.queue[0])])
  }

  /** Take everything. */
  function TakeAll<T>(l: Log<T>): Log<T>
    decreases |l.queue|
  {
    if l.queue == [] then l else TakeAll(TakeOne(l))
  }

  function Items<T>(removed: seq<Removal<T>>): seq<T> {
    seq(|removed|, i requires 0 <= i < |removed| => removed[i].item)
  }

  function TakenItems<T>(removed: seq<Removal<T>>): seq<T> {
    if removed == [] then []
    else
      var n := |removed| - 1;
      TakenItems(removed[..n]) + (if removed[n].Taken? then [removed[n].item] else [])
  }

  function DroppedItems<T>(removed: seq<Removal<T>>): seq<T> {
    if removed == [] then []
    else
      var n := |removed| - 1;
      DroppedItems(removed[..n]) + (if removed[n].Dropped? then [removed[n].item] else [])
  }

  function DroppedCount<T>(removed: seq<Removal<T>>): nat {
    if removed == [] then 0
    else
      var n := |removed| - 1;
      DroppedCount(removed[..n]) + (if removed[n].Dropped? then 1 else 0)
  }

  /** First in, first out: what left the queue, in order, and then what is still in it, is exactly
    * what entered; and the bound holds. */
  ghost predicate Valid<T>(l: Log<T>) {
    && l.enqueued == Items(l.removed) + l.queue
    && (l.cap > 0 ==> |l.queue| <= l.cap)
  }

  lemma TakenItemsSnoc<T>(removed: seq<Removal<T>>, r: Removal<T>)
    ensures TakenItems(removed + [r]) == TakenItems(removed) + if r.Taken? then [r.item] else []
    ensures DroppedCount(removed + [r]) == DroppedCount(removed) + if r.Dropped? then 1 else 0
    ensures Items(removed + [r]) == Items(removed) + [r.item]
  {
    assert (removed + [r])[..|removed|] == removed;
  }

  lemma EnqueueValid<T>(l: Log<T>, x: T)
    requires Valid(l)
    ensures Valid(Enqueue(l, x))
    ensures TakenItems(Enqueue(l, x).removed) == TakenItems(l.removed)
    ensures Enqueue(l, x).enqueued == l.enqueued + [x] && Enqueue(l, x).cap == l.cap
    ensures l.removed <= Enqueue(l, x).removed
    ensures DroppedCount(Enqueue(l, x).removed) == DroppedCount(l.removed) + if Full(l.cap, l.queue) then 1 else 0
  {
    if Full(l.cap, l.queue) {
      TakenItemsSnoc(l.removed, Dropped(l.queue[0]));
    }
  }

  lemma TakeOneValid<T>(l: Log<T>)
    requires Valid(l) && l.queue != []
    ensures Valid(TakeOne(l)) && TakeOne(l).enqueued == l.enqueued && TakeOne(l).cap == l.cap
    ensures TakenItems(TakeOne(l).removed) == TakenItems(l.removed) + [l.queue[0]]
    ensures DroppedCount(TakeOne(l).removed) == DroppedCount(l.removed)
    ensures l.removed <= TakeOne(l).removed
  {
    TakenItemsSnoc(l.removed, Taken(l.queue[0]));
  }

  lemma {:induction false} TakeAllValid<T>(l: Log<T>)
    requires Valid(l)
    ensures Valid(TakeAll(l)) && TakeAll(l).enqueued == l.enqueued && TakeAll(l).cap == l.cap
    ensures TakeAll(l).queue == [] && TakenItems(TakeAll(l).removed) == TakenItems(l.removed) + l.queue
    ensures DroppedCount(TakeAll(l).removed) == DroppedCount(l.removed)
    ensures l.removed <= TakeAll(l).removed
    decreases |l.queue|
  {
    if l.queue == [] {
    } else {
      TakeOneValid(l);
      TakeAllValid(TakeOne(l));
      assert [l.queue[0]] + l.queue[1..] == l.queue;
    }
  }

  // ---------------------------------------------------------------- whole runs

  datatype Op<T> = Put(x: T) | Take

  function Apply<T>(l: Log<T>, op: Op<T>): Log<T> {
    match op
    case Put(x) => Enqueue(l, x)
    case Take => TakeOne(l)
  }

  function Run<T>(cap: int, ops: seq<Op<T>>): Log<T> {
    if ops == [] then Empty(cap) else Apply(Run(cap, ops[..|ops| - 1]), ops[|ops| - 1])
  }

  lemma ApplyValid<T>(l: Log<T>, op: Op<T>)
    requires Valid(l)
    ensures Valid(Apply(l, op)) && l.removed <= Apply(l, op).removed && Apply(l, op).cap == l.cap
  {
    match op
    case Put(x) => EnqueueValid(l, x);
    case Take =>
      if l.queue != [] {
        TakeOneValid(l);
      }
  }

  /** After any run the queue is exactly a suffix of what was enqueued, within the bound, and
    * everything before that suffix was either taken or dropped, each item once. */
  lemma {:induction false} RunValid<T>(cap: int, ops: seq<Op<T>>)
    ensures var l := Run(cap, ops);
            && Valid(l) && l.cap == cap
            && |l.removed| <= |l.enqueued| && l.queue == l.enqueued[|l.removed|..]
            && DroppedCount(l.removed) + |TakenItems(l.removed)| + |l.queue| == |l.enqueued|
  {
    if ops == [] {
    } else {
      RunValid(cap, ops[..|ops| - 1]);
      ApplyValid(Run(cap, ops[..|ops| - 1]), ops[|ops| - 1]);
    }
    CountsAddUp(Run(cap, ops).removed);
  }

  lemma {:induction false} CountsAddUp<T>(removed: seq<Removal<T>>)
    ensures DroppedCount(removed) + |TakenItems(removed)| == |removed|
  {
    if removed == [] {
    } else {
      CountsAddUp(removed[..|removed| - 1]);
    }
  }

  /** Item `i` is still queued when item `i + cap` arrives. */
  ghost predicate StillQueuedWhenFollowed<T>(cap: int, ops: seq<Op<T>>, i: nat) {
    exists k :: 0 <= k < |ops| && ops[k].Put? && Overtakes(Run(cap, ops[..k]), i)
  }

  ghost predicate Overtakes<T>(l: Log<T>, i: nat) {
    |l.enqueued| == i + l.cap && |l.removed| <= i
  }

  lemma {:induction false} RemovedGrows<T>(cap: int, ops: seq<Op<T>>, k: nat)
    requires k <= |ops|
    ensures Run(cap, ops[..k]).removed <= Run(cap, ops).removed
  {
    if k < |ops| {
      var init := ops[..|ops| - 1];
      RemovedGrows(cap, init, k);
      assert init[..k] == ops[..k];
      RunValid(cap, init);
      ApplyValid(Run(cap, init), ops[|ops| - 1]);
    } else {
      assert ops[..k] == ops;
    }
  }

  /** The item that is dropped is the oldest one, and only by the item `cap` places behind it. */
  lemma OvertakenIsDropped<T>(l: Log<T>, x: T, i: nat)
    requires Valid(l) && l.cap > 0
    ensures Overtakes(l, i) ==> |l.removed| == i && Full(l.cap, l.queue)
    ensures |l.removed| == i && Full(l.cap, l.queue) ==> Overtakes(l, i)
    ensures Full(l.cap, l.queue) ==> Enqueue(l, x).removed == l.removed + [Dropped(l.queue[0])]
    ensures !Full(l.cap, l.queue) ==> Enqueue(l, x).removed == l.removed
  {}

  /** The `i`-th item to leave is the `i`-th that entered, and an item has been dropped iff it was
    * still queued when item `i + cap` arrived. */
  lemma DroppedIffOvertaken<T>(cap: int, ops: seq<Op<T>>, i: nat)
    requires cap > 0
    ensures var l := Run(cap, ops);
            && (i < |l.removed| ==> i < |l.enqueued| && l.removed[i].item == l.enqueued[i])
            && (i < |l.removed| && l.removed[i].Dropped? <==> StillQueuedWhenFollowed(cap, ops, i))
  {
    if i < |Run(cap, ops).removed| {
      RemovedByDropIffOvertaken(cap, ops, i);
    } else if StillQueuedWhenFollowed(cap, ops, i) {
      var k :| 0 <= k < |ops| && ops[k].Put? && Overtakes(Run(cap, ops[..k]), i);
      OvertakenHasLeft(cap, ops, i, k);
    }
  }

  lemma {:induction false} RemovedByDropIffOvertaken<T>(cap: int, ops: seq<Op<T>>, i: nat)
    requires cap > 0 && i < |Run(cap, ops).removed|
    ensures i < |Run(cap, ops).enqueued| && Run(cap, ops).removed[i].item == Run(cap, ops).enqueued[i]
    ensures Run(cap, ops).removed[i].Dropped? <==> StillQueuedWhenFollowed(cap, ops, i)
  {
    var l := Run(cap, ops);
    RunValid(cap, ops);
    assert Items(l.removed)[i] == l.removed[i].item;
    var n := |ops| - 1;
    var init, before := ops[..n], Run(cap, ops[..n]);
    RunValid(cap, init);
    ApplyValid(before, ops[n]);
    if i < |before.removed| {
      RemovedByDropIffOvertaken(cap, init, i);
      OvertakenExtends(cap, ops, i);
    } else {
      LeavesLastByDropIffOvertaken(cap, ops, i);
    }
  }

  /** The same for an item that the last operation removes. */
  lemma LeavesLastByDropIffOvertaken<T>(cap: int, ops: seq<Op<T>>, i: nat)
    requires cap > 0 && ops != []
    requires |Run(cap, ops[..|ops| - 1]).removed| <= i < |Run(cap, ops).removed|
    ensures Run(cap, ops).removed[i].Dropped? <==> StillQueuedWhenFollowed(cap, ops, i)
  {
    var n := |ops| - 1;
    var init, before := ops[..n], Run(cap, ops[..n]);
    RunValid(cap, init);
    assert Run(cap, ops) == Apply(before, ops[n]);
    if ops[n].Put? {
      OvertakenIsDropped(before, ops[n].x, i);
      assert Overtakes(Run(cap, ops[..n]), i);
    } else {
      NotOvertakenSince(cap, ops, i);
    }
  }

  lemma NotOvertakenSince<T>(cap: int, ops: seq<Op<T>>, i: nat)
    requires cap > 0 && ops != [] && ops[|ops| - 1].Take? && |Run(cap, ops[..|ops| - 1]).removed| <= i
    ensures !StillQueuedWhenFollowed(cap, ops, i)
  {
    if StillQueuedWhenFollowed(cap, ops, i) {
      var n := |ops| - 1;
      var k :| 0 <= k < |ops| && ops[k].Put? && Overtakes(Run(cap, ops[..k]), i);
      assert k < n && ops[..n][..k] == ops[..k];
      OvertakenHasLeft(cap, ops[..n], i, k);
    }
  }

  /** Once overtaken, item `i` has left by the next operation. */
  lemma OvertakenHasLeft<T>(cap: int, ops: seq<Op<T>>, i: nat, k: nat)
    requires cap > 0 && k < |ops| && ops[k].Put? && Overtakes(Run(cap, ops[..k]), i)
    ensures i < |Run(cap, ops).removed|
  {
    assert ops[..k + 1][..k] == ops[..k];
    RemovedGrows(cap, ops, k + 1);
    RunValid(cap, ops[..k]);
    OvertakenIsDropped(Run(cap, ops[..k]), ops[k].x, i);
  }

  lemma OvertakenExtends<T>(cap: int, ops: seq<Op<T>>, i: nat)
    requires ops != [] && i < |Run(cap, ops[..|ops| - 1]).removed|
    ensures StillQueuedWhenFollowed(cap, ops, i) <==> StillQueuedWhenFollowed(cap, ops[..|ops| - 1], i)
  {
    var init := ops[..|ops| - 1];
    assert forall k :: 0 <= k <= |init| ==> init[..k] == ops[..k];
    if StillQueuedWhenFollowed(cap, init, i) {
      var k :| 0 <= k < |init| && init[k].Put? && Overtakes(Run(cap, init[..k]), i);
      assert ops[k].Put? && Overtakes(Run(cap, ops[..k]), i);
    }
    if StillQueuedWhenFollowed(cap, ops, i) {
      var k :| 0 <= k < |ops| && ops[k].Put? && Overtakes(Run(cap, ops[..k]), i);
      assert k < |init|;
      assert init[k].Put? && Overtakes(Run(cap, init[..k]), i);
    }
  }

  /** A queue without a bound drops nothing. */
  lemma {:induction false} UnboundedDropsNothing<T>(cap: int, ops: seq<Op<T>>)
    requires cap <= 0
    ensures DroppedCount(Run(cap, ops).removed) == 0
  {
    if ops == [] {
    } else {
      var init, last := ops[..|ops| - 1], ops[|ops| - 1];
      UnboundedDropsNothing(cap, init);
      RunValid(cap, init);
      var l := Run(cap, init);
      match last
      case Put(x) => EnqueueValid(l, x);
      case Take =>
        if l.queue != [] {
          TakeOneValid(l);
        }
    }
  }

  // ---------------------------------------------------------------- the asyncio queue

  /** `asyncio.Queue` as the source uses it: the two non-blocking operations. */
  class AsyncQueue<T> {
    const maxsize: int
    var items: seq<T>

    constructor (maxsize: int)
      ensures this.maxsize == maxsize && items == []
    {
      this.maxsize := maxsize;
      items := [];
    }

    /** `put_nowait`: false stands for QueueFull. */
    method PutNowait(x: T) returns (ok: bool)
      modifies this
      ensures ok <==> maxsize <= 0 || |old(items)| < maxsize
      ensures items == if ok then old(items) + [x] else old(items)
    {
      ok := !(maxsize > 0 && |items| >= maxsize);
      if ok {
        items := items + [x];
      }
    }

    /** `get_nowait`: None stands for QueueEmpty. */
    method GetNowait() returns (x: Option<T>)
      modifies this
      ensures if old(items) == [] then x == None && items == []
              else x == Some(old(items)[0]) && items == old(items)[1..]
    {
      if items == [] {
        x := None;
      } else {
        x := Some(items[0]);
        items := items[1..];
      }
    }
  }
}
