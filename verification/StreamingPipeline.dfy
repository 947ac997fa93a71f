/** The reconnecting rpc of newrelic/core/agent_streaming.py together with the buffer of
    newrelic/common/streaming_utils.py that it streams from: the response thread holds its own
    lock while it shuts an iterator down and makes the next one, and takes the buffer's lock
    for each of the two, so other threads may use the buffer in between. */
module StreamingPipeline {
  import opened Prelude
  import B = StreamBufferModel
  import R = StreamingRpcModel

  /** `todo`: what the response thread, which holds its lock, has yet to do to the buffer. */
  datatype Pipeline<T> = Pipeline(rpc: R.Rpc, buffer: B.System<T>, todo: seq<B.Event<T>>)

  datatype Event<T> =
    | Locked(region: R.Event)   // a region of the rpc, or close(), gets the rpc's lock
    | Chore                     // the response thread gets the buffer's lock
    | Uses(use: B.Event<T>)     // anybody else gets the buffer's lock

  /** Iterator number 0 is made by __init__ and never handed to an rpc, so nobody calls its
      __next__; iterators are made and shut down by the response thread alone. */
  predicate FromOutside<T>(e: B.Event<T>) {
    match e
    case NewIterator => false
    case ShutdownIterator(_) => false
    case Next(i, _, _) => i > 0
    case _ => true
  }

  predicate ShutsDown(r: R.Rpc, e: R.Event) {
    e.Region? && r.channel.Some? && r.hasResponse && e.code != R.UNIMPLEMENTED
  }

  /** What a region does to the buffer. */
  function Chores<T>(r: R.Rpc, e: R.Event): seq<B.Event<T>>
    requires R.CanStep(r, e) && |r.shutdowns| > 0
  {
    (if ShutsDown(r, e) then [B.ShutdownIterator(|r.shutdowns| - 1)] else [])
    + if |R.Step(r, e).shutdowns| > |r.shutdowns| then [B.NewIterator] else []
  }

  predicate CanStep<T>(p: Pipeline<T>, e: Event<T>) {
    match e
    case Locked(r) => p.todo == [] && R.CanStep(p.rpc, r) && |p.rpc.shutdowns| > 0
    case Chore => p.todo != [] && B.CanStep(p.buffer, p.todo[0])
    case Uses(b) => FromOutside(b) && B.CanStep(p.buffer, b)
  }

  function Step<T>(p: Pipeline<T>, maxlen: nat, batching: bool, e: Event<T>): Pipeline<T>
    requires CanStep(p, e)
  {
    match e
    case Locked(r) => p.(rpc := R.Step(p.rpc, r), todo := Chores(p.rpc, r))
    case Chore => p.(buffer := B.Step(p.buffer, maxlen, batching, p.todo[0]), todo := p.todo[1..])
    case Uses(b) => p.(buffer := B.Step(p.buffer, maxlen, batching, b))
  }

  function Initial<T>(): Pipeline<T> {
    Pipeline(R.Initial(), B.Initial().(iterators := [B.Iterator(false, false)]), [])
  }

  predicate ValidRun<T>(maxlen: nat, batching: bool, es: seq<Event<T>>)
    decreases |es|, 0
  {
    |es| == 0 ||
    (ValidRun(maxlen, batching, es[..|es| - 1]) && CanStep(After(maxlen, batching, es[..|es| - 1]), es[|es| - 1]))
  }

  function After<T>(maxlen: nat, batching: bool, es: seq<Event<T>>): Pipeline<T>
    requires ValidRun(maxlen, batching, es)
    decreases |es|, 1
  {
    if |es| == 0 then Initial() else Step(After(maxlen, batching, es[..|es| - 1]), maxlen, batching, es[|es| - 1])
  }

  // ----- what every run keeps ----------------------------------------------------------

  /** The last iterator that there is. */
  function Latest<T>(s: B.System<T>): int {
    |s.iterators| - 1
  }

  predicate Shuts<T>(todo: seq<B.Event<T>>) {
    |todo| > 0 && todo[0].ShutdownIterator?
  }

  predicate Makes<T>(todo: seq<B.Event<T>>) {
    |todo| > 0 && todo[|todo| - 1].NewIterator?
  }

  /** At most a shutdown of the latest iterator and then a new one. */
  predicate OkTodo<T>(s: B.System<T>, todo: seq<B.Event<T>>) {
    && |todo| <= 2
    && (|todo| == 2 ==> Shuts(todo) && Makes(todo))
    && (|todo| == 1 ==> Shuts(todo) || Makes(todo))
    && (Shuts(todo) ==> todo[0].i == Latest(s))
  }

  /** All iterators but the first and the latest are shut down; the latest is too, if the rpc
      says so and it is not still to be done. */
  predicate OthersShutDown<T>(p: Pipeline<T>) {
    var its := p.buffer.iterators;
    && |its| > 0 && |p.rpc.shutdowns| == |its| + (if Makes(p.todo) then 1 else 0)
    && (forall k | 1 <= k < |its| - 1 :: its[k].shutdown)
    && (Makes(p.todo) ==> !p.rpc.shutdowns[|its|])
    && (|its| > 1 && p.rpc.shutdowns[|its| - 1] && !Shuts(p.todo) ==> its[|its| - 1].shutdown)
  }

  /** Deliveries never go back to an earlier iterator. */
  predicate InTurn<T>(s: B.System<T>) {
    && (forall i | 0 <= i < |s.removed| && s.removed[i].ToIterator? :: s.removed[i].to <= Latest(s))
    && (forall i, j | 0 <= i < j < |s.removed| && s.removed[i].ToIterator? && s.removed[j].ToIterator? ::
          s.removed[i].to <= s.removed[j].to)
  }

  predicate Inv<T>(p: Pipeline<T>) {
    R.Inv(p.rpc) && OkTodo(p.buffer, p.todo) && OthersShutDown(p) && InTurn(p.buffer)
  }

  /** Only the latest iterator can be given anything. */
  lemma OnlyLatestDelivers<T>(p: Pipeline<T>, batching: bool, i: nat, done1: bool, done2: bool)
    requires OthersShutDown(p) && 0 < i < |p.buffer.iterators|
    requires B.Attempt(p.buffer.buffer, batching, p.buffer.iterators[i].shutdown, done1, done2).Delivered?
    ensures i == Latest(p.buffer)
  {
  }

  lemma LockedKeeps<T>(p: Pipeline<T>, maxlen: nat, batching: bool, e: R.Event)
    requires Inv(p) && CanStep(p, Locked(e))
    ensures Inv(Step(p, maxlen, batching, Locked(e)))
  {
    R.StepKeeps(p.rpc, e);
    LockedOthers(p, e);
  }

  lemma LockedOthers<T>(p: Pipeline<T>, e: R.Event)
    requires R.Inv(p.rpc) && OthersShutDown(p) && p.todo == [] && R.CanStep(p.rpc, e)
    ensures var q := p.(rpc := R.Step(p.rpc, e), todo := Chores(p.rpc, e));
      OkTodo(q.buffer, q.todo) && OthersShutDown(q)
  {
    match e
    case Region(_) =>
    case StreamEnds =>
    case BackOffEnds =>
    case Close =>
  }

  lemma ChoreKeeps<T>(p: Pipeline<T>, maxlen: nat, batching: bool)
    requires Inv(p) && CanStep(p, Chore)
    ensures Inv(Step(p, maxlen, batching, Chore))
  {
    if p.todo[0].NewIterator? {
      MakingKeeps(p, maxlen, batching);
    } else {
      ShuttingKeeps(p, maxlen, batching);
    }
  }

  lemma MakingKeeps<T>(p: Pipeline<T>, maxlen: nat, batching: bool)
    requires Inv(p) && CanStep(p, Chore) && p.todo[0].NewIterator?
    ensures Inv(Step(p, maxlen, batching, Chore))
  {
  }

  lemma ShuttingKeeps<T>(p: Pipeline<T>, maxlen: nat, batching: bool)
    requires Inv(p) && CanStep(p, Chore) && p.todo[0].ShutdownIterator?
    ensures Inv(Step(p, maxlen, batching, Chore))
  {
  }

  /** Shut-down iterators stay so, whoever uses the buffer. */
  lemma UseKeepsShutdowns<T>(s: B.System<T>, maxlen: nat, batching: bool, e: B.Event<T>)
    requires FromOutside(e) && B.CanStep(s, e)
    ensures var r := B.Step(s, maxlen, batching, e);
      && |r.iterators| == |s.iterators|
      && forall k | 0 <= k < |s.iterators| && s.iterators[k].shutdown :: r.iterators[k].shutdown
  {
  }

  lemma DeliveryInTurn<T>(s: B.System<T>, items: seq<T>, i: nat)
    requires InTurn(s) && i == Latest(s)
    ensures InTurn(s.(removed := s.removed + B.ToOne(items, i)))
  {
  }

  lemma UseKeepsTurn<T>(p: Pipeline<T>, maxlen: nat, batching: bool, e: B.Event<T>)
    requires OthersShutDown(p) && InTurn(p.buffer) && FromOutside(e) && B.CanStep(p.buffer, e)
    ensures InTurn(B.Step(p.buffer, maxlen, batching, e))
  {
    var s := p.buffer;
    if e.Next? {
      var o := B.Attempt(s.buffer, batching, s.iterators[e.i].shutdown, e.done1, e.done2);
      if o.Delivered? {
        OnlyLatestDelivers(p, batching, e.i, e.done1, e.done2);
        DeliveryInTurn(s, o.items, e.i);
      }
    }
  }

  lemma UseKeeps<T>(p: Pipeline<T>, maxlen: nat, batching: bool, e: B.Event<T>)
    requires Inv(p) && CanStep(p, Uses(e))
    ensures Inv(Step(p, maxlen, batching, Uses(e)))
  {
    UseKeepsShutdowns(p.buffer, maxlen, batching, e);
    UseKeepsTurn(p, maxlen, batching, e);
  }

  /** Main result: in every run of rpc and buffer together, all iterators handed out before the
      latest are shut down, and deliveries never go back to an earlier one. */
  lemma {:induction false} RunsKeep<T>(maxlen: nat, batching: bool, es: seq<Event<T>>)
    requires ValidRun(maxlen, batching, es)
    ensures Inv(After(maxlen, batching, es))
    decreases |es|
  {
    if |es| > 0 {
      var prefix, e := es[..|es| - 1], es[|es| - 1];
      RunsKeep(maxlen, batching, prefix);
      var p := After(maxlen, batching, prefix);
      match e
      case Locked(r) => LockedKeeps(p, maxlen, batching, r);
      case Chore => ChoreKeeps(p, maxlen, batching);
      case Uses(b) => UseKeeps(p, maxlen, batching, b);
    }
  }

  /** So at most one iterator can deliver at any time, the latest: whatever a step of a run takes
      off the queue for an iterator, it takes for that one. */
  lemma OnlyOneDelivers<T>(maxlen: nat, batching: bool, es: seq<Event<T>>, i: nat, done1: bool, done2: bool)
    requires ValidRun(maxlen, batching, es) && CanStep(After(maxlen, batching, es), Uses(B.Next(i, done1, done2)))
    ensures var s := After(maxlen, batching, es).buffer;
            var r := Step(After(maxlen, batching, es), maxlen, batching, Uses(B.Next(i, done1, done2))).buffer;
      |r.removed| > |s.removed| ==>
        i == Latest(s) && forall k | |s.removed| <= k < |r.removed| :: r.removed[k].to == Latest(s)
  {
    RunsKeep(maxlen, batching, es);
    var p := After(maxlen, batching, es);
    if B.Attempt(p.buffer.buffer, batching, p.buffer.iterators[i].shutdown, done1, done2).Delivered? {
      OnlyLatestDelivers(p, batching, i, done1, done2);
    }
  }

  // ----- the two alone -----------------------------------------------------------------

  /** What a run does to the rpc. */
  function RpcEvents<T>(es: seq<Event<T>>): seq<R.Event> {
    if |es| == 0 then []
    else RpcEvents(es[..|es| - 1]) + if es[|es| - 1].Locked? then [es[|es| - 1].region] else []
  }

  /** What a run does to the buffer, starting with the iterator that __init__ makes. */
  function BufferEvents<T>(maxlen: nat, batching: bool, es: seq<Event<T>>): seq<B.Event<T>>
    requires ValidRun(maxlen, batching, es)
  {
    if |es| == 0 then [B.NewIterator]
    else
      BufferEvents(maxlen, batching, es[..|es| - 1])
      + match es[|es| - 1]
        case Locked(_) => []
        case Chore => [After(maxlen, batching, es[..|es| - 1]).todo[0]]
        case Uses(b) => [b]
  }

  lemma RpcGoesOn(es: seq<R.Event>, e: R.Event)
    requires R.ValidRun(es) && R.CanStep(R.After(es), e)
    ensures R.ValidRun(es + [e]) && R.After(es + [e]) == R.Step(R.After(es), e)
  {
    assert (es + [e])[..|es|] == es;
  }

  lemma BufferGoesOn<T>(maxlen: nat, batching: bool, es: seq<B.Event<T>>, e: B.Event<T>)
    requires B.ValidRun(maxlen, batching, es) && B.CanStep(B.After(maxlen, batching, es), e)
    ensures B.ValidRun(maxlen, batching, es + [e])
    ensures B.After(maxlen, batching, es + [e]) == B.Step(B.After(maxlen, batching, es), maxlen, batching, e)
  {
    assert (es + [e])[..|es|] == es;
  }

  lemma {:induction false} RpcRuns<T>(maxlen: nat, batching: bool, es: seq<Event<T>>)
    requires ValidRun(maxlen, batching, es)
    ensures R.ValidRun(RpcEvents(es)) && After(maxlen, batching, es).rpc == R.After(RpcEvents(es))
    decreases |es|
  {
    if |es| > 0 {
      var prefix, e := es[..|es| - 1], es[|es| - 1];
      RpcRuns(maxlen, batching, prefix);
      if e.Locked? {
        RpcGoesOn(RpcEvents(prefix), e.region);
      } else {
        assert RpcEvents(es) == RpcEvents(prefix);
      }
    }
  }

  lemma OneIterator<T>(maxlen: nat, batching: bool)
    ensures B.ValidRun<T>(maxlen, batching, [B.NewIterator])
    ensures B.After<T>(maxlen, batching, [B.NewIterator]) == Initial<T>().buffer
  {
    var none: seq<B.Event<T>> := [];
    BufferGoesOn(maxlen, batching, none, B.NewIterator);
    assert none + [B.NewIterator] == [B.NewIterator];
  }

  lemma {:induction false} BufferRuns<T>(maxlen: nat, batching: bool, es: seq<Event<T>>)
    requires ValidRun(maxlen, batching, es)
    ensures var bs := BufferEvents(maxlen, batching, es);
      B.ValidRun(maxlen, batching, bs) && After(maxlen, batching, es).buffer == B.After(maxlen, batching, bs)
    decreases |es|
  {
    if |es| == 0 {
      OneIterator<T>(maxlen, batching);
    } else {
      var prefix := es[..|es| - 1];
      var bs := BufferEvents(maxlen, batching, prefix);
      BufferRuns(maxlen, batching, prefix);
      match es[|es| - 1]
      case Locked(_) => assert bs + [] == bs;
      case Chore => BufferGoesOn(maxlen, batching, bs, After(maxlen, batching, prefix).todo[0]);
      case Uses(b) => BufferGoesOn(maxlen, batching, bs, b);
    }
  }

  /** A run of the two together is a run of each, so that whatever every run of the rpc or of the
      buffer keeps holds of the two together; items are never lost on a reconnect. */
  lemma EachRuns<T>(maxlen: nat, batching: bool, es: seq<Event<T>>)
    requires ValidRun(maxlen, batching, es)
    ensures R.ValidRun(RpcEvents(es)) && After(maxlen, batching, es).rpc == R.After(RpcEvents(es))
    ensures B.Inv(After(maxlen, batching, es).buffer, maxlen)
    ensures var s := After(maxlen, batching, es).buffer; var bs := BufferEvents(maxlen, batching, es);
      (s.buffer.shutdown <==> B.WasShutDown(bs)) && s.accepted == B.PutInTime(bs)
      && |s.iterators| == B.IteratorsMade(bs)
      && forall i: nat | i < |s.iterators| :: s.iterators[i].shutdown <==> B.WasStopped(bs, i)
  {
    var bs := BufferEvents(maxlen, batching, es);
    RpcRuns(maxlen, batching, es);
    BufferRuns(maxlen, batching, es);
    B.RunsKeep(maxlen, batching, bs);
    B.ToldByEvents(maxlen, batching, bs);
  }

  /** Nothing that the response thread still has to do to the buffer can be held up; when it is
      done the rpc goes on as it would alone; and everybody may put, read the counters and shut
      the buffer down at any time, and call __next__ on what is not asleep. */
  lemma NothingIsHeldUp<T>(maxlen: nat, batching: bool, es: seq<Event<T>>, e: R.Event, item: T, i: nat, done: bool)
    requires ValidRun(maxlen, batching, es)
    ensures var p := After(maxlen, batching, es);
      && (CanStep(p, Chore) <==> p.todo != [])
      && (CanStep(p, Locked(e)) <==> p.todo == [] && R.CanStep(p.rpc, e))
      && CanStep(p, Uses(B.PutItem(item))) && CanStep(p, Uses(B.Stats)) && CanStep(p, Uses(B.Shutdown))
      && (CanStep(p, Uses(B.Next(i, done, done))) <==>
            0 < i < |p.buffer.iterators| && !p.buffer.iterators[i].waiting)
      && !CanStep(p, Uses(B.NewIterator)) && !CanStep(p, Uses(B.ShutdownIterator(i)))
  {
    RunsKeep(maxlen, batching, es);
    ChoresGoOn(After(maxlen, batching, es));
  }

  lemma ChoresGoOn<T>(p: Pipeline<T>)
    requires OkTodo(p.buffer, p.todo) && |p.buffer.iterators| > 0
    ensures CanStep(p, Chore) <==> p.todo != []
  {
  }

  /** What a region leaves the response thread to do: a stream that ended or failed has its
      iterator shut down, before there is a new one; a wait that is over leaves only the new one;
      a close, or UNIMPLEMENTED, nothing. */
  ghost predicate Leaves<T>(r: R.Rpc, latest: nat, e: R.Event, todo: seq<B.Event<T>>) {
    match e
    case Close => todo == []
    case StreamEnds => todo == []
    case BackOffEnds => todo == if r.closed then [] else [B.NewIterator]
    case Region(code) =>
      if r.closed then todo == []
      else if !r.hasResponse then todo == [B.NewIterator]
      else match code
           case OK => todo == [B.ShutdownIterator(latest), B.NewIterator]
           case UNIMPLEMENTED => todo == []
           case OtherError => todo == [B.ShutdownIterator(latest)]
  }

  /** It leaves just that in every run. */
  lemma RegionLeaves<T>(maxlen: nat, batching: bool, es: seq<Event<T>>, e: R.Event)
    requires ValidRun(maxlen, batching, es) && CanStep(After(maxlen, batching, es), Locked(e))
    ensures var p := After(maxlen, batching, es); var q := Step(p, maxlen, batching, Locked(e));
      q.buffer == p.buffer && Latest(p.buffer) >= 0 && Leaves(p.rpc, Latest(p.buffer), e, q.todo)
  {
    RunsKeep(maxlen, batching, es);
    ChoresAre(After(maxlen, batching, es), e);
  }

  lemma ChoresAre<T>(p: Pipeline<T>, e: R.Event)
    requires R.Inv(p.rpc) && R.CanStep(p.rpc, e) && |p.rpc.shutdowns| == |p.buffer.iterators| > 0
    ensures Leaves<T>(p.rpc, Latest(p.buffer), e, Chores(p.rpc, e))
  {
  }
}
