/** The reconnecting stream of newrelic/core/agent_streaming.py: the response thread, which
    works under a lock and releases it while it streams or backs off, and close(), which may
    come at any of those points. */
module StreamingRpcModel {
  import opened Prelude

  /** Seconds to wait. */
  const RETRY_POLICY: seq<nat> := [15, 15, 30, 60, 120, 300]

  datatype Code = OK | UNIMPLEMENTED | OtherError

  /** Where the response thread is while the lock is free. */
  datatype Phase = LoopTop | Streaming | BackingOff | Ended

  /** `shutdowns[k]` tells whether request iterator k was shut down; number 0 is the one made
      by __init__, which is replaced before it is handed to any rpc.  `waits` is the history
      of back-off times and `channels` counts the channels made. */
  datatype Rpc = Rpc(
    channel: Option<nat>,
    channels: nat,
    closed: bool,
    shutdowns: seq<bool>,
    retry: nat,
    hasResponse: bool,
    phase: Phase,
    waits: seq<nat>)

  datatype Event =
    | Region(code: Code)      // the thread takes the lock; `code` is that of the ended stream
    | StreamEnds
    | BackOffEnds             // timeout or notification
    | Close

  function CreateChannel(r: Rpc): Rpc {
    r.(channel := Some(r.channels), channels := r.channels + 1)
  }

  function ShutdownIterator(r: Rpc): Rpc
    requires |r.shutdowns| > 0
  {
    r.(shutdowns := r.shutdowns[|r.shutdowns| - 1 := true])
  }

  function CloseRpc(r: Rpc): Rpc {
    if r.channel.Some? then r.(channel := None, closed := true) else r
  }

  function RetryTime(retry: nat): nat {
    if retry >= |RETRY_POLICY| then RETRY_POLICY[|RETRY_POLICY| - 1] else RETRY_POLICY[retry]
  }

  /** A retryable failure: wait, with the lock given up. */
  function BackOff(r: Rpc): Rpc
    requires |r.shutdowns| > 0
  {
    ShutdownIterator(r).(retry := if r.retry >= |RETRY_POLICY| then r.retry else r.retry + 1,
                         waits := r.waits + [RetryTime(r.retry)], phase := BackingOff)
  }

  /** The end of a region: leave the loop if closed, else hand a fresh iterator to the rpc. */
  function Connect(r: Rpc): Rpc {
    if r.closed then CloseRpc(r).(phase := Ended)
    else r.(shutdowns := r.shutdowns + [false], hasResponse := true, phase := Streaming)
  }

  predicate CanStep(r: Rpc, e: Event) {
    match e
    case Region(_) => r.phase.LoopTop?
    case StreamEnds => r.phase.Streaming?
    case BackOffEnds => r.phase.BackingOff?
    case Close => true
  }

  function Step(r: Rpc, e: Event): Rpc
    requires CanStep(r, e) && |r.shutdowns| > 0
    ensures |Step(r, e).shutdowns| > 0
  {
    match e
    case Close => CloseRpc(r)
    case StreamEnds => r.(phase := LoopTop)
    case BackOffEnds => if r.closed then CloseRpc(r).(phase := Ended) else Connect(CreateChannel(r))
    case Region(code) =>
      if r.channel.Some? && r.hasResponse then
        match code
        case OK => Connect(CreateChannel(ShutdownIterator(r)))
        case UNIMPLEMENTED => CloseRpc(r).(phase := Ended)
        case OtherError => BackOff(r)
      else Connect(r)
  }

  /** As __init__ and connect() leave it. */
  function Initial(): Rpc {
    Rpc(Some(0), 1, false, [false], 0, false, LoopTop, [])
  }

  predicate ValidRun(es: seq<Event>)
    decreases |es|, 0
  {
    |es| == 0 || (ValidRun(es[..|es| - 1]) && CanStep(After(es[..|es| - 1]), es[|es| - 1]))
  }

  function After(es: seq<Event>): (r: Rpc)
    requires ValidRun(es)
    ensures |r.shutdowns| > 0
    decreases |es|, 1
  {
    if |es| == 0 then Initial() else Step(After(es[..|es| - 1]), es[|es| - 1])
  }

  // ----- what every run keeps ----------------------------------------------------------

  /** Only the last iterator handed out may still be live. */
  predicate OneLiveIterator(r: Rpc) {
    && |r.shutdowns| > 0
    && (forall k | 1 <= k < |r.shutdowns| - 1 :: r.shutdowns[k])
    && (!r.hasResponse ==> |r.shutdowns| == 1)
    && (r.phase.BackingOff? && |r.shutdowns| > 1 ==> r.shutdowns[|r.shutdowns| - 1])
  }

  /** The k-th back-off waited what the policy says for min(k, 5). */
  predicate BacksOffByPolicy(r: Rpc) {
    && r.retry == Min(|r.waits|, |RETRY_POLICY|)
    && (forall k | 0 <= k < |r.waits| :: r.waits[k] == RETRY_POLICY[Min(k, 5)])
  }

  predicate Inv(r: Rpc) {
    && (r.closed <==> r.channel.None?)
    && (r.phase.Ended? ==> r.closed)
    && (r.phase.BackingOff? || r.phase.Streaming? ==> r.hasResponse)
    && OneLiveIterator(r) && BacksOffByPolicy(r)
    && (r.channel.Some? ==> r.channel.value == r.channels - 1)
  }

  lemma StepKeeps(r: Rpc, e: Event)
    requires Inv(r) && CanStep(r, e)
    ensures Inv(Step(r, e))
  {
  }

  /** Main result, over every interleaving of the response thread with close(): `closed`
      holds exactly when the channel is gone; every iterator handed out before the current
      one is shut down; back-off follows the retry policy however many OK reconnects come
      between the failures; the thread never ends without closing. */
  lemma {:induction false} RunsKeep(es: seq<Event>)
    requires ValidRun(es)
    ensures Inv(After(es))
    decreases |es|
  {
    if |es| > 0 {
      RunsKeep(es[..|es| - 1]);
      StepKeeps(After(es[..|es| - 1]), es[|es| - 1]);
    }
  }

  /** Handing out a new iterator: all those handed out earlier are shut down by then. */
  lemma HandsOutAfterShutdown(es: seq<Event>, e: Event)
    requires ValidRun(es) && CanStep(After(es), e)
    requires |Step(After(es), e).shutdowns| > |After(es).shutdowns|
    ensures var now := Step(After(es), e).shutdowns;
      && |now| == |After(es).shutdowns| + 1
      && !now[|now| - 1] && forall k | 1 <= k < |now| - 1 :: now[k]
  {
    RunsKeep(es);
  }

  /** Once closed: no further channel, no further iterator, and it stays closed. */
  lemma {:induction false} ClosedForGood(es: seq<Event>, n: nat)
    requires ValidRun(es) && n <= |es| && ValidRun(es[..n]) && After(es[..n]).closed
    ensures After(es).closed
    ensures After(es).channels == After(es[..n]).channels && After(es).shutdowns == After(es[..n]).shutdowns
    decreases |es|
  {
    if n == |es| {
      assert es[..n] == es;
    } else {
      var prefix := es[..|es| - 1];
      assert prefix[..n] == es[..n];
      ClosedForGood(prefix, n);
      RunsKeep(prefix);
    }
  }

  // ----- what comes of each event ------------------------------------------------------

  /** Event e finds the thread with a channel, and a stream that ended behind it. */
  predicate StreamEnded(r: Rpc, e: Event) {
    e.Region? && r.channel.Some? && r.hasResponse
  }

  /** How many streams failed in a way that is retried after a while. */
  function Failures(es: seq<Event>): nat
    requires ValidRun(es)
  {
    if |es| == 0 then 0
    else
      var e := es[|es| - 1];
      Failures(es[..|es| - 1]) + if StreamEnded(After(es[..|es| - 1]), e) && e.code == OtherError then 1 else 0
  }

  /** How many channels were made anew: after a stream that ended well, and after a wait that no
      close() came into. */
  function Reconnects(es: seq<Event>): nat
    requires ValidRun(es)
  {
    if |es| == 0 then 0
    else
      var r, e := After(es[..|es| - 1]), es[|es| - 1];
      Reconnects(es[..|es| - 1])
      + if (StreamEnded(r, e) && e.code == OK) || (e.BackOffEnds? && !r.closed) then 1 else 0
  }

  /** Main result about reconnecting: over every run the thread has waited once for each failed
      stream, and made one channel more than it reconnected. */
  lemma {:induction false} OneWaitPerFailure(es: seq<Event>)
    requires ValidRun(es)
    ensures |After(es).waits| == Failures(es) && After(es).channels == 1 + Reconnects(es)
    decreases |es|
  {
    if |es| > 0 {
      OneWaitPerFailure(es[..|es| - 1]);
      RunsKeep(es[..|es| - 1]);
      StepCounts(After(es[..|es| - 1]), es[|es| - 1]);
    }
  }

  lemma StepCounts(r: Rpc, e: Event)
    requires Inv(r) && CanStep(r, e)
    ensures |Step(r, e).waits| == |r.waits| + if StreamEnded(r, e) && e.code == OtherError then 1 else 0
    ensures Step(r, e).channels
            == r.channels + if (StreamEnded(r, e) && e.code == OK) || (e.BackOffEnds? && !r.closed) then 1 else 0
  {
  }

  /** The lock is given up to wait, for as long as the policy says for this failure. */
  predicate Waits(r: Rpc, k: nat)
    requires k > 0
  {
    && r.phase.BackingOff? && |r.waits| == k && r.waits[k - 1] == [15, 15, 30, 60, 120, 300][Min(k, 6) - 1]
    && |r.shutdowns| > 0 && r.shutdowns[|r.shutdowns| - 1]
  }

  /** A new iterator is streamed from, and the stream before it, if there was one, ended. */
  predicate StreamsAnew(r: Rpc, after: Rpc) {
    && after.phase.Streaming? && after.hasResponse
    && |after.shutdowns| == |r.shutdowns| + 1 && !after.shutdowns[|r.shutdowns|]
    && (forall k | 1 <= k < |r.shutdowns| :: after.shutdowns[k])
    && after.waits == r.waits && after.retry == r.retry
  }

  /** What every event does to a run: a failed stream makes the thread wait, the k-th as the
      policy says for the k-th; one that ended well, or a wait that is over, is followed at once
      by a new stream over a new channel; UNIMPLEMENTED and a close end the thread. */
  lemma EveryEvent(es: seq<Event>, e: Event)
    requires ValidRun(es) && CanStep(After(es), e)
    ensures var r, after := After(es), Step(After(es), e);
      match e
      case Close => after.closed && after.channel.None? && after.phase == r.phase
      case StreamEnds => after == r.(phase := LoopTop)
      case BackOffEnds =>
        if r.closed then after.phase.Ended? && after.closed
        else StreamsAnew(r, after) && after.channel == Some(r.channels) && after.channels == r.channels + 1
      case Region(code) =>
        if r.closed then after.phase.Ended? && after.closed && after.waits == r.waits
        else if !r.hasResponse then StreamsAnew(r, after) && after.channel == r.channel && after.channels == r.channels
        else match code
             case OK => StreamsAnew(r, after) && after.channel == Some(r.channels) && after.channels == r.channels + 1
             case UNIMPLEMENTED => after.phase.Ended? && after.closed && after.channel.None?
             case OtherError => Waits(after, Failures(es) + 1) && after.channel == r.channel && !after.closed
  {
    RunsKeep(es);
    OneWaitPerFailure(es);
    StepKeeps(After(es), e);
  }

  /** Whatever code there may be, the first turn of the loop just starts to stream over the channel
      that connect() made. */
  lemma FirstTurn(code: Code)
    ensures ValidRun([]) && CanStep(After([]), Region(code))
    ensures var r := Step(After([]), Region(code));
      r.phase.Streaming? && r.channel == Some(0) && r.channels == 1 && r.waits == [] && !r.closed
      && |r.shutdowns| == 2 && !r.shutdowns[1]
  {
  }

  /** close() may come at any time, and the thread always has a next step until it ends. */
  lemma NeverStuck(es: seq<Event>)
    requires ValidRun(es)
    ensures CanStep(After(es), Close)
    ensures var r := After(es);
      r.phase.Ended? <==> !(exists e :: e != Close && CanStep(r, e))
  {
    var r := After(es);
    assert CanStep(r, Region(OK)) || CanStep(r, StreamEnds) || CanStep(r, BackOffEnds) || r.phase.Ended?;
  }

  /** UNIMPLEMENTED on a live channel ends the loop, closed. */
  lemma UnimplementedEnds(es: seq<Event>)
    requires ValidRun(es) && After(es).phase.LoopTop? && After(es).hasResponse
    ensures var r := Step(After(es), Region(UNIMPLEMENTED));
      && r.phase.Ended? && r.closed && r.channel.None?
  {
    RunsKeep(es);
  }
}

/** The class StreamingRpc; `retry`, `hasResponse` and `phase` are the locals and the program
    point of its response thread. */
module StreamingRpcObjects {
  import opened Prelude
  import opened StreamBufferObjects
  import opened M = StreamingRpcModel

  class StreamingRpc<T> {
    const streamBuffer: StreamBuffer<T>
    var requestIterator: StreamBufferIterator<T>
    var channel: Option<nat>
    var channels: nat
    var closed: bool
    var retry: nat
    var hasResponse: bool
    var phase: Phase
    ghost var waits: seq<nat>
    ghost var issued: seq<StreamBufferIterator<T>>

    constructor (streamBuffer: StreamBuffer<T>)
      ensures Valid() && this.streamBuffer == streamBuffer && fresh(issued)
      ensures State() == M.Initial()
    {
      this.streamBuffer := streamBuffer;
      var first := new StreamBufferIterator(streamBuffer);
      requestIterator, issued := first, [first];
      channel, channels, closed := Some(0), 1, false;
      retry, hasResponse, phase, waits := 0, false, LoopTop, [];
    }

    ghost predicate Valid()
      reads this, issued
    {
      && |issued| > 0 && requestIterator == issued[|issued| - 1]
      && (forall i, j | 0 <= i < j < |issued| :: issued[i] != issued[j])
      && (forall i | 0 <= i < |issued| :: issued[i].streamBuffer == streamBuffer)
    }

    ghost function Shutdowns(its: seq<StreamBufferIterator<T>>): (r: seq<bool>)
      reads its
      ensures |r| == |its| && forall k | 0 <= k < |its| :: r[k] == its[k].shutdownFlag
    {
      if |its| == 0 then [] else Shutdowns(its[..|its| - 1]) + [its[|its| - 1].shutdownFlag]
    }

    lemma LastIssued(its: seq<StreamBufferIterator<T>>, it: StreamBufferIterator<T>)
      ensures Shutdowns(its + [it]) == Shutdowns(its) + [it.shutdownFlag]
    {
      assert (its + [it])[..|its|] == its;
    }

    ghost function State(): Rpc
      reads this, issued
    {
      Rpc(channel, channels, closed, Shutdowns(issued), retry, hasResponse, phase, waits)
    }

    method CreateChannel()
      requires Valid()
      modifies this`channel, this`channels
      ensures Valid() && State() == M.CreateChannel(old(State()))
    {
      channel := Some(channels);
      channels := channels + 1;
    }

    method CreateResponseIterator()
      requires Valid()
      modifies this`requestIterator, this`hasResponse, this`phase, this`issued
      ensures Valid() && fresh(set it | it in issued && it !in old(issued))
      ensures State() == old(State()).(shutdowns := old(State()).shutdowns + [false],
                                       hasResponse := true, phase := Streaming)
    {
      var it := new StreamBufferIterator(streamBuffer);
      ghost var all := issued + [it];
      assert Shutdowns(all) == old(Shutdowns(issued)) + [false] by {
        LastIssued(issued, it);
      }
      requestIterator, hasResponse, phase := it, true, Streaming;
      issued := all;
      assert State().shutdowns == old(State()).shutdowns + [false];
    }

    method ShutdownRequestIterator()
      requires Valid()
      modifies requestIterator`shutdownFlag, streamBuffer`waiters
      ensures Valid() && State() == M.ShutdownIterator(old(State()))
    {
      requestIterator.Shutdown();
      assert Shutdowns(issued) == old(Shutdowns(issued))[|issued| - 1 := true];
    }

    method Close()
      requires Valid()
      modifies this`channel, this`closed
      ensures Valid() && State() == M.CloseRpc(old(State()))
    {
      if channel.Some? {
        channel := None;
        closed := true;
      }
    }

    /** The tail of a region, common to all ways through it. */
    method Connect()
      requires Valid()
      modifies this`channel, this`closed, this`requestIterator, this`hasResponse, this`phase, this`issued
      ensures Valid() && State() == M.Connect(old(State()))
      ensures fresh(set it | it in issued && it !in old(issued))
    {
      if closed {
        Close();
        phase := Ended;
        return;
      }
      CreateResponseIterator();
    }

    /** The next time of the policy; the last one stays. */
    method NextWait() returns (retryTime: nat)
      modifies this`retry
      ensures retryTime == M.RetryTime(old(retry))
      ensures retry == if old(retry) >= |RETRY_POLICY| then old(retry) else old(retry) + 1
    {
      if retry >= |RETRY_POLICY| {
        retryTime := RETRY_POLICY[|RETRY_POLICY| - 1];
      } else {
        retryTime := RETRY_POLICY[retry];
        retry := retry + 1;
      }
    }

    /** A retryable failure: the next wait of the policy, with the lock given up. */
    method BackOff()
      requires Valid() && phase.LoopTop?
      modifies this`retry, this`waits, this`phase, requestIterator`shutdownFlag, streamBuffer`waiters
      ensures Valid() && State() == M.BackOff(old(State()))
    {
      var retryTime := NextWait();
      waits := waits + [retryTime];
      phase := BackingOff;
      assert State() == old(State()).(retry := retry, waits := waits, phase := phase);
      ShutdownRequestIterator();
    }

    /** One turn of the loop in process_responses, from taking the lock to releasing it. */
    method ProcessRegion(code: Code)
      requires Valid() && phase.LoopTop?
      modifies this, requestIterator`shutdownFlag, streamBuffer`waiters
      ensures Valid() && State() == M.Step(old(State()), Region(code))
    {
      if channel.Some? && hasResponse {
        if code == OK {
          ShutdownRequestIterator();
          CreateChannel();
        } else if code == UNIMPLEMENTED {
          Close();
          phase := Ended;
          return;
        } else {
          BackOff();
          return;
        }
      }
      Connect();
    }

    /** Back from `notify.wait(retry_time)` with the lock held again. */
    method Resume()
      requires Valid() && phase.BackingOff?
      modifies this
      ensures Valid() && State() == M.Step(old(State()), BackOffEnds)
    {
      if closed {
        Close();
        phase := Ended;
        return;
      }
      CreateChannel();
      Connect();
    }
  }
}
