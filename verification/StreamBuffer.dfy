/** The bounded span queue of infinite tracing: one buffer under one lock, any number of
    iterators pulling from it. */
module StreamBufferModel {

  const MAX_BATCH_SIZE: nat := 100

  /** The fields of StreamBuffer that its lock protects. */
  datatype Buffer<T> = Buffer(queue: seq<T>, shutdown: bool, seen: nat, dropped: nat)

  /** deque(maxlen).append: a full deque loses its oldest item; with maxlen 0 that is the
      new one. */
  function Append<T>(queue: seq<T>, maxlen: nat, item: T): seq<T> {
    if |queue| >= maxlen then (queue + [item])[1..] else queue + [item]
  }

  function Put<T>(b: Buffer<T>, maxlen: nat, item: T): Buffer<T> {
    if b.shutdown then b
    else Buffer(Append(b.queue, maxlen, item), false, b.seen + 1,
                b.dropped + if |b.queue| >= maxlen then 1 else 0)
  }

  /** How one pass through the loop of `__next__` ends. */
  datatype Outcome<T> = Delivered(items: seq<T>) | Stopped | Waits | LoopsAgain

  predicate StreamClosed<T>(b: Buffer<T>, iteratorShutdown: bool, streamDone: bool) {
    iteratorShutdown || b.shutdown || streamDone
  }

  /** One pass; `done1` and `done2` are the two readings of whether the gRPC stream ended. */
  function Attempt<T>(b: Buffer<T>, batching: bool, iteratorShutdown: bool, done1: bool, done2: bool): Outcome<T> {
    if StreamClosed(b, iteratorShutdown, done1) then Stopped
    else if batching && |b.queue| > MAX_BATCH_SIZE then Delivered(b.queue[..MAX_BATCH_SIZE])
    else if batching && |b.queue| > 0 then Delivered(b.queue)
    else if !batching && |b.queue| > 0 then Delivered(b.queue[..1])
    else if !StreamClosed(b, iteratorShutdown, done2) then Waits
    else LoopsAgain
  }

  function Taken<T>(o: Outcome<T>): nat {
    if o.Delivered? then |o.items| else 0
  }

  // ----- a system of iterators ---------------------------------------------------------

  datatype Iterator = Iterator(shutdown: bool, waiting: bool)

  /** Where an accepted item went, in the order in which items left the queue. */
  datatype Removal<T> = ToIterator(item: T, to: nat) | Evicted(item: T)

  datatype System<T> = System(
    buffer: Buffer<T>,
    iterators: seq<Iterator>,
    accepted: seq<T>,          // every item put before shutdown, in order
    removed: seq<Removal<T>>,
    batches: seq<seq<T>>,      // what the iterators returned
    seenTotal: nat,            // sums of what stats() has returned
    droppedTotal: nat)

  datatype Event<T> =
    | PutItem(item: T)
    | Stats
    | Shutdown
    | NewIterator
    | ShutdownIterator(i: nat)
    | Next(i: nat, done1: bool, done2: bool)

  function NotifyAll(its: seq<Iterator>): (r: seq<Iterator>)
    ensures |r| == |its|
    ensures forall i | 0 <= i < |its| :: r[i] == its[i].(waiting := false)
  {
    seq(|its|, i requires 0 <= i < |its| => its[i].(waiting := false))
  }

  /** A waiting iterator does not run until it is notified. */
  predicate CanStep<T>(s: System<T>, e: Event<T>) {
    match e
    case ShutdownIterator(i) => i < |s.iterators|
    case Next(i, _, _) => i < |s.iterators| && !s.iterators[i].waiting
    case _ => true
  }

  function ToOne<T>(items: seq<T>, i: nat): (r: seq<Removal<T>>)
    ensures |r| == |items| && forall k | 0 <= k < |r| :: r[k] == ToIterator(items[k], i)
  {
    seq(|items|, k requires 0 <= k < |items| => ToIterator(items[k], i))
  }

  function Step<T>(s: System<T>, maxlen: nat, batching: bool, e: Event<T>): System<T>
    requires CanStep(s, e)
  {
    match e
    case PutItem(item) =>
      if s.buffer.shutdown then s
      else s.(buffer := Put(s.buffer, maxlen, item), accepted := s.accepted + [item],
              removed := if |s.buffer.queue| >= maxlen
                         then s.removed + [Evicted((s.buffer.queue + [item])[0])] else s.removed,
              iterators := NotifyAll(s.iterators))
    case Stats =>
      s.(buffer := s.buffer.(seen := 0, dropped := 0),
         seenTotal := s.seenTotal + s.buffer.seen, droppedTotal := s.droppedTotal + s.buffer.dropped)
    case Shutdown =>
      s.(buffer := s.buffer.(shutdown := true), iterators := NotifyAll(s.iterators))
    case NewIterator =>
      s.(iterators := s.iterators + [Iterator(false, false)])
    case ShutdownIterator(i) =>
      s.(iterators := NotifyAll(s.iterators[i := Iterator(true, false)]))
    case Next(i, done1, done2) =>
      match Attempt(s.buffer, batching, s.iterators[i].shutdown, done1, done2)
      case Stopped =>
        if s.iterators[i].shutdown then s else s.(iterators := NotifyAll(s.iterators[i := Iterator(true, false)]))
      case Delivered(items) =>
        s.(buffer := s.buffer.(queue := s.buffer.queue[|items|..]),
           removed := s.removed + ToOne(items, i), batches := s.batches + [items])
      case Waits => s.(iterators := s.iterators[i := s.iterators[i].(waiting := true)])
      case LoopsAgain => s
  }

  function Initial<T>(): System<T> {
    System(Buffer([], false, 0, 0), [], [], [], [], 0, 0)
  }

  predicate ValidRun<T>(maxlen: nat, batching: bool, es: seq<Event<T>>)
    decreases |es|, 0
  {
    |es| == 0 ||
    (ValidRun(maxlen, batching, es[..|es| - 1]) && CanStep(After(maxlen, batching, es[..|es| - 1]), es[|es| - 1]))
  }

  function After<T>(maxlen: nat, batching: bool, es: seq<Event<T>>): System<T>
    requires ValidRun(maxlen, batching, es)
    decreases |es|, 1
  {
    if |es| == 0 then Initial()
    else Step(After(maxlen, batching, es[..|es| - 1]), maxlen, batching, es[|es| - 1])
  }

  // ----- what every run keeps ----------------------------------------------------------

  function Items<T>(rs: seq<Removal<T>>): (r: seq<T>)
    ensures |r| == |rs|
  {
    seq(|rs|, k requires 0 <= k < |rs| => rs[k].item)
  }

  function Evictions<T>(rs: seq<Removal<T>>): nat {
    if |rs| == 0 then 0 else Evictions(rs[..|rs| - 1]) + if rs[|rs| - 1].Evicted? then 1 else 0
  }

  /** The items that reached an iterator, in order. */
  function DeliveredItems<T>(rs: seq<Removal<T>>): seq<T> {
    if |rs| == 0 then []
    else DeliveredItems(rs[..|rs| - 1]) + if rs[|rs| - 1].ToIterator? then [rs[|rs| - 1].item] else []
  }

  function Concat<T>(batches: seq<seq<T>>): seq<T> {
    if |batches| == 0 then [] else Concat(batches[..|batches| - 1]) + batches[|batches| - 1]
  }

  ghost predicate InOrder<T>(s: System<T>) {
    s.accepted == Items(s.removed) + s.buffer.queue
  }

  predicate Tallied<T>(s: System<T>) {
    && s.seenTotal + s.buffer.seen == |s.accepted|
    && s.droppedTotal + s.buffer.dropped == Evictions(s.removed)
  }

  ghost predicate Batched<T>(s: System<T>) {
    && Concat(s.batches) == DeliveredItems(s.removed)
    && forall k | 0 <= k < |s.batches| :: 1 <= |s.batches[k]| <= MAX_BATCH_SIZE
  }

  /** An iterator that waits has nothing to fetch and no reason to stop. */
  predicate NobodySleepsOnWork<T>(s: System<T>) {
    forall i | 0 <= i < |s.iterators| && s.iterators[i].waiting ::
      |s.buffer.queue| == 0 && !s.buffer.shutdown && !s.iterators[i].shutdown
  }

  ghost predicate Inv<T>(s: System<T>, maxlen: nat) {
    InOrder(s) && |s.buffer.queue| <= maxlen && Tallied(s) && Batched(s) && NobodySleepsOnWork(s)
  }

  lemma LastRemoval<T>(rs: seq<Removal<T>>, r: Removal<T>)
    ensures Items(rs + [r]) == Items(rs) + [r.item]
    ensures Evictions(rs + [r]) == Evictions(rs) + if r.Evicted? then 1 else 0
    ensures DeliveredItems(rs + [r]) == if r.ToIterator? then DeliveredItems(rs) + [r.item] else DeliveredItems(rs)
  {
    assert (rs + [r])[..|rs|] == rs;
    assert DeliveredItems(rs) + [] == DeliveredItems(rs);
  }

  lemma ItemsAppend<T>(rs: seq<Removal<T>>, more: seq<Removal<T>>)
    ensures Items(rs + more) == Items(rs) + Items(more)
  {
  }

  lemma OneMore<T>(before: seq<T>, more: seq<T>, n: nat)
    requires n < |more|
    ensures before + more[..n + 1] == before + more[..n] + [more[n]]
  {
  }

  lemma {:induction false} AfterDelivery<T>(rs: seq<Removal<T>>, items: seq<T>, i: nat, n: nat)
    requires n <= |items|
    ensures Evictions(rs + ToOne(items, i)[..n]) == Evictions(rs)
    ensures DeliveredItems(rs + ToOne(items, i)[..n]) == DeliveredItems(rs) + items[..n]
    decreases n
  {
    var more := ToOne(items, i);
    if n == 0 {
      assert rs + more[..0] == rs && DeliveredItems(rs) + items[..0] == DeliveredItems(rs);
    } else {
      AfterDelivery(rs, items, i, n - 1);
      LastRemoval(rs + more[..n - 1], more[n - 1]);
      OneMore(rs, more, n - 1);
      OneMore(DeliveredItems(rs), items, n - 1);
    }
  }

  lemma AllDelivered<T>(rs: seq<Removal<T>>, items: seq<T>, i: nat)
    ensures Evictions(rs + ToOne(items, i)) == Evictions(rs)
    ensures DeliveredItems(rs + ToOne(items, i)) == DeliveredItems(rs) + items
    ensures Items(rs + ToOne(items, i)) == Items(rs) + items
  {
    AfterDelivery(rs, items, i, |items|);
    assert ToOne(items, i)[..|items|] == ToOne(items, i) && items[..|items|] == items;
    ItemsAppend(rs, ToOne(items, i));
    assert Items(ToOne(items, i)) == items;
  }

  // ----- deliveries --------------------------------------------------------------------

  function Deliver<T>(s: System<T>, items: seq<T>, i: nat): System<T>
    requires items <= s.buffer.queue
  {
    s.(buffer := s.buffer.(queue := s.buffer.queue[|items|..]),
       removed := s.removed + ToOne(items, i), batches := s.batches + [items])
  }

  lemma DeliveryInOrder<T>(s: System<T>, items: seq<T>, i: nat)
    requires InOrder(s) && items <= s.buffer.queue
    ensures InOrder(Deliver(s, items, i))
  {
    AllDelivered(s.removed, items, i);
    QueueSplits(Items(s.removed), s.buffer.queue, |items|);
  }

  lemma QueueSplits<T>(before: seq<T>, queue: seq<T>, n: nat)
    requires n <= |queue|
    ensures before + queue == before + queue[..n] + queue[n..]
  {
  }

  lemma DeliveryTallied<T>(s: System<T>, items: seq<T>, i: nat)
    requires Tallied(s) && items <= s.buffer.queue
    ensures Tallied(Deliver(s, items, i))
  {
    AllDelivered(s.removed, items, i);
  }

  lemma DeliveryBatched<T>(s: System<T>, items: seq<T>, i: nat)
    requires Batched(s) && items <= s.buffer.queue && 1 <= |items| <= MAX_BATCH_SIZE
    ensures Batched(Deliver(s, items, i))
  {
    AllDelivered(s.removed, items, i);
    assert (s.batches + [items])[..|s.batches|] == s.batches;
  }

  lemma DeliveryKeeps<T>(s: System<T>, maxlen: nat, items: seq<T>, i: nat)
    requires Inv(s, maxlen) && items <= s.buffer.queue && 1 <= |items| <= MAX_BATCH_SIZE
    ensures Inv(Deliver(s, items, i), maxlen)
  {
    DeliveryInOrder(s, items, i);
    DeliveryTallied(s, items, i);
    DeliveryBatched(s, items, i);
  }

  lemma NextKeeps<T>(s: System<T>, maxlen: nat, batching: bool, i: nat, done1: bool, done2: bool)
    requires Inv(s, maxlen) && CanStep(s, Next(i, done1, done2))
    ensures Inv(Step(s, maxlen, batching, Next(i, done1, done2)), maxlen)
  {
    var o := Attempt(s.buffer, batching, s.iterators[i].shutdown, done1, done2);
    if o.Delivered? {
      assert Step(s, maxlen, batching, Next(i, done1, done2)) == Deliver(s, o.items, i);
      DeliveryKeeps(s, maxlen, o.items, i);
    } else {
      IteratorsOnly(s, Step(s, maxlen, batching, Next(i, done1, done2)), maxlen);
    }
  }

  /** Who waits and who is shut down matters only for sleeping. */
  lemma IteratorsOnly<T>(s: System<T>, r: System<T>, maxlen: nat)
    requires Inv(s, maxlen) && r == s.(iterators := r.iterators) && NobodySleepsOnWork(r)
    ensures Inv(r, maxlen)
  {
  }

  // ----- the other events --------------------------------------------------------------

  /** What a put of a live buffer does: perhaps an eviction, and a longer queue. */
  lemma PutInOrder<T>(s: System<T>, maxlen: nat, item: T)
    requires InOrder(s)
    ensures var full := s.buffer.queue + [item];
            var removed := if |s.buffer.queue| >= maxlen then s.removed + [Evicted(full[0])] else s.removed;
      s.accepted + [item] == Items(removed) + Append(s.buffer.queue, maxlen, item)
  {
    var full := s.buffer.queue + [item];
    LastRemoval(s.removed, Evicted(full[0]));
    QueueSplits(Items(s.removed), full, 1);
    assert full[..1] == [full[0]];
    assert s.accepted + [item] == Items(s.removed) + full;
  }

  lemma PutTallied<T>(s: System<T>, maxlen: nat, batching: bool, item: T)
    requires Tallied(s) && !s.buffer.shutdown
    ensures Tallied(Step(s, maxlen, batching, PutItem(item)))
  {
    LastRemoval(s.removed, Evicted((s.buffer.queue + [item])[0]));
  }

  lemma PutBatched<T>(s: System<T>, maxlen: nat, batching: bool, item: T)
    requires Batched(s) && !s.buffer.shutdown
    ensures Batched(Step(s, maxlen, batching, PutItem(item)))
  {
    LastRemoval(s.removed, Evicted((s.buffer.queue + [item])[0]));
  }

  lemma PutKeeps<T>(s: System<T>, maxlen: nat, batching: bool, item: T)
    requires Inv(s, maxlen) && !s.buffer.shutdown
    ensures Inv(Step(s, maxlen, batching, PutItem(item)), maxlen)
  {
    PutInOrder(s, maxlen, item);
    PutTallied(s, maxlen, batching, item);
    PutBatched(s, maxlen, batching, item);
  }

  lemma StatsKeeps<T>(s: System<T>, maxlen: nat, batching: bool)
    requires Inv(s, maxlen)
    ensures Inv(Step(s, maxlen, batching, Stats), maxlen)
  {
  }

  lemma ShutdownKeeps<T>(s: System<T>, maxlen: nat, batching: bool)
    requires Inv(s, maxlen)
    ensures Inv(Step(s, maxlen, batching, Shutdown), maxlen)
  {
  }

  lemma StepKeeps<T>(s: System<T>, maxlen: nat, batching: bool, e: Event<T>)
    requires Inv(s, maxlen) && CanStep(s, e)
    ensures Inv(Step(s, maxlen, batching, e), maxlen)
  {
    match e
    case PutItem(item) =>
      if !s.buffer.shutdown {
        PutKeeps(s, maxlen, batching, item);
      }
    case Stats => StatsKeeps(s, maxlen, batching);
    case Shutdown => ShutdownKeeps(s, maxlen, batching);
    case NewIterator => IteratorsOnly(s, Step(s, maxlen, batching, e), maxlen);
    case ShutdownIterator(_) => IteratorsOnly(s, Step(s, maxlen, batching, e), maxlen);
    case Next(i, done1, done2) => NextKeeps(s, maxlen, batching, i, done1, done2);
  }

  /** Main result: over every interleaving of put, stats, shutdown and several iterators the
      accepted items are, in order, those that left the queue followed by those in it; the
      counters are exact; every batch holds 1 to 100 items; no iterator sleeps while there is
      something to fetch or a reason to stop. */
  lemma {:induction false} RunsKeep<T>(maxlen: nat, batching: bool, es: seq<Event<T>>)
    requires ValidRun(maxlen, batching, es)
    ensures Inv(After(maxlen, batching, es), maxlen)
    decreases |es|
  {
    if |es| > 0 {
      RunsKeep(maxlen, batching, es[..|es| - 1]);
      StepKeeps(After(maxlen, batching, es[..|es| - 1]), maxlen, batching, es[|es| - 1]);
    }
  }

  /** An iterator that is shut down, or whose buffer or stream is, stops and takes nothing. */
  lemma StoppingTakesNothing<T>(s: System<T>, maxlen: nat, batching: bool, i: nat, done1: bool, done2: bool)
    requires i < |s.iterators| && !s.iterators[i].waiting
    requires s.iterators[i].shutdown || s.buffer.shutdown || done1
    ensures var r := Step(s, maxlen, batching, Next(i, done1, done2));
      && r.buffer == s.buffer && r.removed == s.removed && r.batches == s.batches
      && r.iterators[i].shutdown
  {
  }

  /** A pass of a live iterator, with its buffer and its stream open: from a queue with something
      in it it delivers the oldest item, or with batching as many of the oldest as there are, up
      to a hundred; at an empty queue it sleeps, unless the stream has just ended. */
  lemma LivePassDelivers<T>(s: System<T>, maxlen: nat, batching: bool, i: nat, done2: bool)
    requires i < |s.iterators| && !s.iterators[i].waiting && !s.iterators[i].shutdown && !s.buffer.shutdown
    ensures var q := s.buffer.queue; var r := Step(s, maxlen, batching, Next(i, false, done2));
      var n := if !batching then 1 else if |q| < 100 then |q| else 100;
      if |q| > 0 then
        && r.buffer == s.buffer.(queue := q[n..]) && r.batches == s.batches + [q[..n]] && r.iterators == s.iterators
        && |r.removed| == |s.removed| + n && r.removed[..|s.removed|] == s.removed
        && forall k | 0 <= k < n :: r.removed[|s.removed| + k] == ToIterator(q[k], i)
      else r == s.(iterators := s.iterators[i := Iterator(false, !done2)])
  {
    var q := s.buffer.queue;
    assert q[..|q|] == q && q[|q|..] == [];
    assert s.iterators[i := Iterator(false, false)] == s.iterators;
  }

  // ----- what the state remembers, told by the events ----------------------------------

  predicate WasShutDown<T>(es: seq<Event<T>>) {
    exists j | 0 <= j < |es| :: es[j].Shutdown?
  }

  /** The items put before any shutdown. */
  function PutInTime<T>(es: seq<Event<T>>): seq<T> {
    if |es| == 0 then []
    else
      var prefix, e := es[..|es| - 1], es[|es| - 1];
      PutInTime(prefix) + if e.PutItem? && !WasShutDown(prefix) then [e.item] else []
  }

  function IteratorsMade<T>(es: seq<Event<T>>): nat {
    if |es| == 0 then 0 else IteratorsMade(es[..|es| - 1]) + if es[|es| - 1].NewIterator? then 1 else 0
  }

  /** Event j shuts iterator i down, or finds that its stream ended or its buffer was shut down. */
  predicate Stops<T>(es: seq<Event<T>>, i: nat, j: nat)
    requires j < |es|
  {
    || es[j] == ShutdownIterator(i)
    || (es[j].Next? && es[j].i == i && (es[j].done1 || WasShutDown(es[..j])))
  }

  predicate WasStopped<T>(es: seq<Event<T>>, i: nat) {
    exists j: nat | j < |es| :: Stops(es, i, j)
  }

  lemma ToldByLast<T>(es: seq<Event<T>>, i: nat)
    requires |es| > 0
    ensures var prefix, e := es[..|es| - 1], es[|es| - 1];
      && (WasShutDown(es) <==> WasShutDown(prefix) || e.Shutdown?)
      && (WasStopped(es, i) <==> WasStopped(prefix, i) || Stops(es, i, |es| - 1))
  {
    var n := |es| - 1;
    assert forall j | 0 <= j < n :: es[..n][j] == es[j];
    forall j: nat | j < n
      ensures Stops(es[..n], i, j) <==> Stops(es, i, j)
    {
      assert es[..n][..j] == es[..j];
    }
    if WasStopped(es[..n], i) {
      var j: nat :| j < n && Stops(es[..n], i, j);
      assert Stops(es, i, j);
    }
    if WasStopped(es, i) && !Stops(es, i, n) {
      var j: nat :| j < |es| && Stops(es, i, j);
      assert Stops(es[..n], i, j);
    }
  }

  lemma NoneBeforeMade<T>(maxlen: nat, batching: bool, es: seq<Event<T>>, i: nat)
    requires ValidRun(maxlen, batching, es) && |After(maxlen, batching, es).iterators| <= i
    ensures !WasStopped(es, i)
    decreases |es|
  {
    if |es| > 0 {
      ToldByLast(es, i);
      NoneBeforeMade(maxlen, batching, es[..|es| - 1], i);
    }
  }

  lemma StepTold<T>(s: System<T>, maxlen: nat, batching: bool, e: Event<T>)
    requires CanStep(s, e)
    ensures var r := Step(s, maxlen, batching, e);
      && (r.buffer.shutdown <==> s.buffer.shutdown || e.Shutdown?)
      && r.accepted == s.accepted + (if e.PutItem? && !s.buffer.shutdown then [e.item] else [])
      && |r.iterators| == |s.iterators| + (if e.NewIterator? then 1 else 0)
      && (e.NewIterator? ==> r.iterators[|s.iterators|] == Iterator(false, false))
      && forall i: nat | i < |s.iterators| ::
           r.iterators[i].shutdown <==>
             || s.iterators[i].shutdown || e == ShutdownIterator(i)
             || (e.Next? && e.i == i && (e.done1 || s.buffer.shutdown))
  {
  }

  /** Main result, told by the events alone: the buffer accepts exactly the items put before it is
      shut down, and an iterator is shut down exactly if somebody shut it down, or if it came for
      more when its stream had ended or the buffer was shut down. */
  lemma {:induction false} ToldByEvents<T>(maxlen: nat, batching: bool, es: seq<Event<T>>)
    requires ValidRun(maxlen, batching, es)
    ensures var s := After(maxlen, batching, es);
      && (s.buffer.shutdown <==> WasShutDown(es)) && s.accepted == PutInTime(es)
      && |s.iterators| == IteratorsMade(es)
      && forall i: nat | i < |s.iterators| :: s.iterators[i].shutdown <==> WasStopped(es, i)
    decreases |es|
  {
    if |es| > 0 {
      var n := |es| - 1;
      var before := After(maxlen, batching, es[..n]);
      ToldByEvents(maxlen, batching, es[..n]);
      StepTold(before, maxlen, batching, es[n]);
      ToldByLast(es, 0);
      forall i: nat | i < |After(maxlen, batching, es).iterators|
        ensures After(maxlen, batching, es).iterators[i].shutdown <==> WasStopped(es, i)
      {
        ToldByLast(es, i);
        if i == |before.iterators| {
          NoneBeforeMade(maxlen, batching, es[..n], i);
        }
      }
    }
  }

  // ----- batching ----------------------------------------------------------------------

  /** n fetches, one item at a time. */
  function Fetch<T>(b: Buffer<T>, n: nat): (r: (seq<T>, Buffer<T>))
    requires n <= |b.queue|
    ensures r.1 == b.(queue := b.queue[n..])
    decreases n
  {
    if n == 0 then ([], b)
    else
      var o := Attempt(b, false, b.shutdown, b.shutdown, b.shutdown);
      var (rest, b') := Fetch(b.(queue := b.queue[1..]), n - 1);
      (if o.Delivered? then o.items + rest else rest, b')
  }

  lemma {:induction false} FetchIsPrefix<T>(b: Buffer<T>, n: nat)
    requires n <= |b.queue| && !b.shutdown
    ensures Fetch(b, n).0 == b.queue[..n]
    decreases n
  {
    if n > 0 {
      FetchIsPrefix(b.(queue := b.queue[1..]), n - 1);
      assert b.queue[..n] == b.queue[..1] + b.queue[1..][..n - 1];
    }
  }

  /** A batch is what as many single fetches would have returned. */
  lemma BatchIsSingleFetches<T>(b: Buffer<T>, done1: bool, done2: bool)
    requires Attempt(b, true, false, done1, done2).Delivered?
    ensures var items := Attempt(b, true, false, done1, done2).items;
      && 1 <= |items| <= |b.queue|
      && Fetch(b, |items|).0 == items
      && (|items| < |b.queue| ==> |items| == MAX_BATCH_SIZE)
  {
    var items := Attempt(b, true, false, done1, done2).items;
    FetchIsPrefix(b, |items|);
  }
}

/** The classes of newrelic/common/streaming_utils.py. */
module StreamBufferObjects {
  import opened M = StreamBufferModel

  class StreamBuffer<T> {
    const maxlen: nat
    const batching: bool
    var queue: seq<T>
    var shutdownFlag: bool
    var seen: nat
    var dropped: nat
    var waiters: set<StreamBufferIterator<T>>     // the threads waiting on the condition

    constructor (maxlen: nat, batching: bool)
      ensures this.maxlen == maxlen && this.batching == batching
      ensures State() == Buffer([], false, 0, 0) && waiters == {}
    {
      this.maxlen, this.batching := maxlen, batching;
      queue, shutdownFlag, seen, dropped, waiters := [], false, 0, 0, {};
    }

    function State(): Buffer<T>
      reads this
    {
      Buffer(queue, shutdownFlag, seen, dropped)
    }

    method Shutdown()
      modifies this
      ensures State() == old(State()).(shutdown := true) && waiters == {}
    {
      shutdownFlag := true;
      waiters := {};
    }

    method Put(item: T)
      modifies this
      ensures State() == M.Put(old(State()), maxlen, item)
      ensures waiters == if old(shutdownFlag) then old(waiters) else {}
    {
      if shutdownFlag {
        return;
      }
      seen := seen + 1;
      if |queue| >= maxlen {
        dropped := dropped + 1;
      }
      queue := M.Append(queue, maxlen, item);
      waiters := {};
    }

    method Stats() returns (seenNow: nat, droppedNow: nat)
      modifies this
      ensures (seenNow, droppedNow) == old((seen, dropped))
      ensures State() == old(State()).(seen := 0, dropped := 0) && waiters == old(waiters)
    {
      seenNow, droppedNow := seen, dropped;
      seen, dropped := 0, 0;
    }

    method PopLeft() returns (item: T)
      requires |queue| > 0
      modifies this`queue
      ensures old(queue) == [item] + queue
    {
      item := queue[0];
      queue := queue[1..];
    }
  }

  class StreamBufferIterator<T> {
    const streamBuffer: StreamBuffer<T>
    var shutdownFlag: bool

    constructor (buffer: StreamBuffer<T>)
      ensures streamBuffer == buffer && !shutdownFlag
    {
      streamBuffer, shutdownFlag := buffer, false;
    }

    method Shutdown()
      modifies this`shutdownFlag, streamBuffer`waiters
      ensures shutdownFlag && streamBuffer.waiters == {}
    {
      shutdownFlag := true;
      streamBuffer.waiters := {};
    }

    predicate StreamClosed(done: bool)
      reads this, streamBuffer
    {
      shutdownFlag || streamBuffer.shutdownFlag || done
    }

    /** One pass of the loop in `__next__`, up to a return or to releasing the lock. */
    method Attempt(done1: bool, done2: bool) returns (o: Outcome<T>)
      modifies this`shutdownFlag, streamBuffer`queue, streamBuffer`waiters
      ensures o == M.Attempt(old(streamBuffer.State()), streamBuffer.batching, old(shutdownFlag), done1, done2)
      ensures streamBuffer.State() == old(streamBuffer.State()).(queue := old(streamBuffer.queue)[Taken(o)..])
      ensures shutdownFlag == (old(shutdownFlag) || o.Stopped?)
      ensures streamBuffer.waiters == if o.Waits? then old(streamBuffer.waiters) + {this}
                                      else if o.Stopped? && !old(shutdownFlag) then {} else old(streamBuffer.waiters)
    {
      if StreamClosed(done1) {
        if !shutdownFlag {
          Shutdown();
        }
        return Stopped;
      }
      if streamBuffer.batching {
        if |streamBuffer.queue| > MAX_BATCH_SIZE {
          var batch := PopBatch();
          return Delivered(batch);
        } else if |streamBuffer.queue| > 0 {
          var batch := streamBuffer.queue;
          streamBuffer.queue := [];
          return Delivered(batch);
        }
      } else if |streamBuffer.queue| > 0 {
        var item := streamBuffer.PopLeft();
        return Delivered([item]);
      }
      if !StreamClosed(done2) && |streamBuffer.queue| == 0 {
        streamBuffer.waiters := streamBuffer.waiters + {this};
        return Waits;
      }
      return LoopsAgain;
    }

    /** The first MAX_BATCH_SIZE items, popped one by one. */
    method PopBatch() returns (batch: seq<T>)
      requires |streamBuffer.queue| > MAX_BATCH_SIZE
      modifies streamBuffer`queue
      ensures batch == old(streamBuffer.queue)[..MAX_BATCH_SIZE]
      ensures streamBuffer.queue == old(streamBuffer.queue)[MAX_BATCH_SIZE..]
    {
      batch := [];
      var k := 0;
      while k < MAX_BATCH_SIZE
        invariant k <= MAX_BATCH_SIZE
        invariant |batch| == k && batch + streamBuffer.queue == old(streamBuffer.queue)
      {
        var item := streamBuffer.PopLeft();
        batch := batch + [item];
        k := k + 1;
      }
    }
  }
}
