/** Transactions whose traces nest properly, last in first out: the total time recorded is
    the transaction's duration, whenever recording is stopped. */
module TraceNested {
  import opened Prelude
  import opened TraceModel
  import opened TraceInvariant
  import TraceWalk

  /** The current trace is the last of the open ones; a refused enter opens nothing. */
  predicate Fits(m: Machine, open: seq<nat>, e: Event) {
    && |open| > 0
    && match e
       case EnterEvent(p, _, _) => p == open[|open| - 1]
       case ExitEvent(i, _) => |open| > 1 && i == open[|open| - 1]
       case StopEvent(_) => true
  }

  function NextOpen(m: Machine, open: seq<nat>, e: Event): seq<nat>
    requires Enabled(m, e) && Fits(m, open, e)
  {
    match e
    case EnterEvent(p, _, _) => if Refused(m.s, p) then open else open + [|m.s.traces|]
    case ExitEvent(_, _) => open[..|open| - 1]
    case StopEvent(_) => open
  }

  predicate Nested(start: int, es: seq<Event>)
    requires ValidRun(start, es)
    decreases |es|, 0
  {
    |es| == 0 ||
    (Nested(start, es[..|es| - 1])
     && Fits(After(start, es[..|es| - 1]), Open(start, es[..|es| - 1]), es[|es| - 1]))
  }

  function Open(start: int, es: seq<Event>): seq<nat>
    requires ValidRun(start, es) && Nested(start, es)
    decreases |es|, 1
  {
    if |es| == 0 then [0]
    else NextOpen(After(start, es[..|es| - 1]), Open(start, es[..|es| - 1]), es[|es| - 1])
  }

  function StartOf(s: State, i: nat): int
    requires i < |s.traces|
  {
    if i == 0 then s.startTime else s.traces[i].startTime
  }

  /** The open traces run from the Sentinel down, each the parent of the next. */
  predicate Linked(s: State, open: seq<nat>) {
    && |open| > 0 && open[0] == 0
    && (forall k: nat | k < |open| :: open[k] < |s.traces|)
    && (forall k: nat | 0 < k < |open| :: open[k - 1] < open[k])
    && (forall k: nat | 0 < k < |open| :: s.traces[open[k]].parent == Some(open[k - 1]))
  }

  predicate OthersDone(s: State, open: seq<nat>) {
    forall j: nat | 0 < j < |s.traces| && s.traces[j].parent.Some? :: j in open
  }

  /** Each open trace runs; all but the last have one outstanding child. */
  predicate OpenAt(s: State, open: seq<nat>, k: nat)
    requires k < |open|
  {
    open[k] < |s.traces|
    && var t := s.traces[open[k]];
    && !t.exited && !t.hasAsyncChildren
    && t.childCount - |t.children| == if k == |open| - 1 then 0 else 1
  }

  predicate Chain(s: State, open: seq<nat>) {
    && Linked(s, open) && OthersDone(s, open)
    && (forall k: nat | k < |open| :: OpenAt(s, open, k))
  }

  /** What the children of an open trace took so far fits before its open child started. */
  predicate Fitting(m: Machine, open: seq<nat>)
    requires |m.s.traces| == |m.s.exclusive|
    requires forall k: nat | k < |open| :: open[k] < |m.s.traces|
  {
    && (m.s.stopped ==> m.s.endTime <= m.clock)
    && (forall k: nat | k < |open| :: FitsAt(m, open, k))
  }

  predicate FitsAt(m: Machine, open: seq<nat>, k: nat)
    requires |m.s.traces| == |m.s.exclusive|
    requires forall k: nat | k < |open| :: open[k] < |m.s.traces|
    requires k < |open|
  {
    var limit := if k == |open| - 1 then EffectiveTime(m.s, m.clock) else StartOf(m.s, open[k + 1]);
    && StartOf(m.s, open[k]) <= EffectiveTime(m.s, m.clock)
    && 0 <= m.s.exclusive[open[k]] + limit - StartOf(m.s, open[k])
  }

  predicate NestedInv(m: Machine, open: seq<nat>) {
    && WellFormed(m.s)
    && Chain(m.s, open) && Fitting(m, open)
    && TraceWalk.Sum(m.s.exclusive) == 0
  }

  // ----- one event ---------------------------------------------------------------------

  lemma EnterNested(m: Machine, open: seq<nat>, terminal: bool, at: int)
    requires NestedInv(m, open) && m.clock <= at && !Refused(m.s, open[|open| - 1])
    ensures NestedInv(Machine(Enter(m.s, open[|open| - 1], terminal, at), at), open + [|m.s.traces|])
  {
    var s, p, n := m.s, open[|open| - 1], |m.s.traces|;
    var r := Enter(s, p, terminal, at);
    assert r.traces[n] == NewTrace(Some(p), terminal, at);
    assert r.exclusive[..n] == s.exclusive;
    EnterChain(s, open, r);
    EnterFits(m, open, r, at);
  }

  lemma EnterChain(s: State, open: seq<nat>, r: State)
    requires WellFormed(s) && Chain(s, open) && |r.traces| == |s.traces| + 1
    requires var p, t := open[|open| - 1], r.traces[|s.traces|];
      && t == NewTrace(Some(p), t.terminal, t.startTime)
      && (forall k: nat | k < |s.traces| ::
            r.traces[k] == if k == p then IncrementChildCount(s.traces[p]) else s.traces[k])
    ensures Chain(r, open + [|s.traces|])
  {
    EnterLinked(s, open, r);
    EnterListed(s, open, r);
    forall k: nat | k <= |open|
      ensures OpenAt(r, open + [|s.traces|], k)
    {
      if k < |open| {
        assert OpenAt(s, open, k);
        BelowTop(s, open, k, |open| - 1);
      }
    }
  }

  lemma EnterLinked(s: State, open: seq<nat>, r: State)
    requires Linked(s, open) && |r.traces| == |s.traces| + 1
    requires r.traces[|s.traces|].parent == Some(open[|open| - 1])
    requires forall j: nat | j < |s.traces| :: r.traces[j].parent == s.traces[j].parent
    ensures Linked(r, open + [|s.traces|])
  {
  }

  lemma EnterListed(s: State, open: seq<nat>, r: State)
    requires |r.traces| == |s.traces| + 1 && OthersDone(s, open)
    requires forall j: nat | j < |s.traces| :: r.traces[j].parent == s.traces[j].parent
    ensures OthersDone(r, open + [|s.traces|])
  {
    assert (open + [|s.traces|])[|open|] == |s.traces|;
    forall j: nat | 0 < j < |r.traces| && r.traces[j].parent.Some?
      ensures j in open + [|s.traces|]
    {
      if j < |s.traces| {
        assert j in open;
      }
    }
  }

  lemma EnterFits(m: Machine, open: seq<nat>, r: State, at: int)
    requires NestedInv(m, open) && m.clock <= at && !m.s.stopped
    requires |r.traces| == |r.exclusive| == |m.s.traces| + 1
    requires r.traces[|m.s.traces|].startTime == at && r.exclusive[|m.s.traces|] == 0
    requires forall k: nat | k < |m.s.traces| ::
               r.traces[k].startTime == m.s.traces[k].startTime && r.exclusive[k] == m.s.exclusive[k]
    requires r.startTime == m.s.startTime && !r.stopped
    ensures Fitting(Machine(r, at), open + [|m.s.traces|])
  {
    forall k: nat | k < |open| + 1
      ensures FitsAt(Machine(r, at), open + [|m.s.traces|], k)
    {
      if k < |open| {
        assert FitsAt(m, open, k);
      }
    }
  }

  /** What a sync exit of i, d after it started, makes of the exclusive times. */
  function Moved(xs: seq<int>, i: nat, p: nat, d: int): seq<int>
    requires i < |xs| && p < |xs|
  {
    xs[i := ExclusiveAtExit(xs[i], d)][p := xs[p] - d]
  }

  function DurationAt(s: State, i: nat, at: int): int
    requires i < |s.traces|
  {
    MarkExited(s.traces[i], EffectiveTime(s, at)).duration
  }

  /** The sync path: the open trace completes into its parent and nothing climbs further. */
  lemma ExitIsSync(s: State, i: nat, at: int)
    requires WellFormed(s) && 0 < i < |s.traces| && s.traces[i].parent.Some?
    requires s.traces[i].childCount == |s.traces[i].children|
    requires var parent := s.traces[s.traces[i].parent.value]; !parent.exited && !parent.hasAsyncChildren
    ensures var p := s.traces[i].parent.value; var r := Exit(s, i, at);
      && r.exclusive == Moved(s.exclusive, i, p, DurationAt(s, i, at))
      && |r.traces| == |s.traces|
      && r.traces[i].parent.None?
      && r.traces[p] == s.traces[p].(children := s.traces[p].children + [i])
      && (forall k: nat | k < |s.traces| && k != i && k != p :: r.traces[k] == s.traces[k])
      && r.startTime == s.startTime && r.stopped == s.stopped && r.endTime == s.endTime
  {
    var p, r1 := s.traces[i].parent.value, Marked(s, i, at);
    SyncCompletes(r1, i);
    var r2 := CompleteOne(r1, i);
    assert ReadyToComplete(r1.traces[i]);
    assert CompleteTrace(r1, i) == CompleteTrace(r2, p);
    assert !ReadyToComplete(r2.traces[p]);
  }

  lemma SyncCompletes(s: State, i: nat)
    requires WellFormed(s) && 0 < i < |s.traces| && s.traces[i].parent.Some?
    requires var parent := s.traces[s.traces[i].parent.value]; !parent.exited && !parent.hasAsyncChildren
    ensures var p := s.traces[i].parent.value; var r := CompleteOne(s, i);
      && r.exclusive == s.exclusive[p := s.exclusive[p] - s.traces[i].duration]
      && r.traces == s.traces[i := s.traces[i].(isAsync := false, parent := None, nodeCount := s.nodeCount + 1)]
                             [p := s.traces[p].(children := s.traces[p].children + [i])]
      && r.startTime == s.startTime && r.stopped == s.stopped && r.endTime == s.endTime
  {
    var p := s.traces[i].parent.value;
    var s1 := ProcessNode(Detach(s, i), i);
    assert s1.exclusive == s.exclusive && s1.traces[p] == s.traces[p] && !s1.traces[i].isAsync;
  }

  lemma ExitNested(m: Machine, open: seq<nat>, r: State, at: int)
    requires NestedInv(m, open) && m.clock <= at && |open| > 1 && r == Exit(m.s, open[|open| - 1], at)
    ensures NestedInv(Machine(r, at), open[..|open| - 1])
  {
    var s, n := m.s, |open| - 1;
    var i, p := open[n], open[n - 1];
    assert OpenAt(s, open, n) && OpenAt(s, open, n - 1);
    ExitIsSync(s, i, at);
    NotClamped(m, open, at);
    ExitSum(s.exclusive, i, p, DurationAt(s, i, at));
    ExitChain(s, open, r);
    ExitFits(m, open, r, at);
  }

  /** What a trace adds for itself its parent takes off. */
  lemma ExitSum(xs: seq<int>, i: nat, p: nat, d: int)
    requires p < i < |xs| && 0 <= xs[i] + d
    ensures TraceWalk.Sum(Moved(xs, i, p, d)) == TraceWalk.Sum(xs)
  {
    TwoUpdates(xs, i, xs[i] + d, p, xs[p] - d);
  }

  lemma TwoUpdates(xs: seq<int>, i: nat, x: int, p: nat, y: int)
    requires p < i < |xs|
    ensures TraceWalk.Sum(xs[i := x][p := y]) == TraceWalk.Sum(xs) - xs[i] + x - xs[p] + y
  {
    TraceWalk.SumUpdate(xs, i, x);
    TraceWalk.SumUpdate(xs[i := x], p, y);
  }

  lemma NotClamped(m: Machine, open: seq<nat>, at: int)
    requires NestedInv(m, open) && m.clock <= at && |open| > 1
    ensures var i := open[|open| - 1];
      0 <= m.s.exclusive[i] + DurationAt(m.s, i, at)
  {
    assert FitsAt(m, open, |open| - 1) && open[|open| - 2] < open[|open| - 1];
  }

  lemma {:induction false} BelowTop(s: State, open: seq<nat>, k: nat, l: nat)
    requires Linked(s, open) && k <= l < |open|
    ensures k < l ==> open[k] < open[l]
    decreases l
  {
    if k < l {
      BelowTop(s, open, k, l - 1);
    }
  }

  lemma ExitChain(s: State, open: seq<nat>, r: State)
    requires WellFormed(s) && Chain(s, open) && |open| > 1 && |r.traces| == |s.traces|
    requires var i, p := open[|open| - 1], open[|open| - 2];
      && r.traces[i].parent.None?
      && r.traces[p] == s.traces[p].(children := s.traces[p].children + [i])
      && (forall k: nat | k < |s.traces| && k != i && k != p :: r.traces[k] == s.traces[k])
    ensures Chain(r, open[..|open| - 1])
  {
    var n := |open| - 1;
    forall k: nat | k < n
      ensures OpenAt(r, open[..n], k) && r.traces[open[k]].parent == s.traces[open[k]].parent
    {
      assert OpenAt(s, open, k);
      BelowTop(s, open, k, n);
      BelowTop(s, open, k, n - 1);
    }
    ExitListed(s, open, r);
  }

  lemma ExitListed(s: State, open: seq<nat>, r: State)
    requires OthersDone(s, open) && |open| > 1 && |r.traces| == |s.traces|
    requires forall j: nat | j < |s.traces| ::
      r.traces[j].parent == if j == open[|open| - 1] then None else s.traces[j].parent
    ensures OthersDone(r, open[..|open| - 1])
  {
    forall j: nat | 0 < j < |r.traces| && r.traces[j].parent.Some?
      ensures j in open[..|open| - 1]
    {
      assert j in open && j != open[|open| - 1];
    }
  }

  lemma ExitFits(m: Machine, open: seq<nat>, r: State, at: int)
    requires NestedInv(m, open) && |open| > 1 && m.clock <= at
    requires var i, p := open[|open| - 1], open[|open| - 2];
      && |r.traces| == |m.s.traces|
      && r.exclusive == Moved(m.s.exclusive, i, p, DurationAt(m.s, i, at))
      && r.startTime == m.s.startTime && r.stopped == m.s.stopped && r.endTime == m.s.endTime
      && (forall k: nat | k < |m.s.traces| && k != i :: r.traces[k].startTime == m.s.traces[k].startTime)
    ensures Fitting(Machine(r, at), open[..|open| - 1])
  {
    var n := |open| - 1;
    assert FitsAt(m, open, n);
    forall k: nat | k < n
      ensures FitsAt(Machine(r, at), open[..n], k)
    {
      BelowTop(m.s, open, k, n);
      if k < n - 1 {
        BelowTop(m.s, open, k, n - 1);
      }
      assert FitsAt(m, open, k);
    }
  }

  lemma StepNested(m: Machine, open: seq<nat>, e: Event)
    requires NestedInv(m, open) && Enabled(m, e) && Fits(m, open, e)
    ensures NestedInv(Step(m, e), NextOpen(m, open, e))
  {
    match e
    case EnterEvent(p, terminal, at) =>
      if Refused(m.s, p) {
        WaitNested(m, open, at);
      } else {
        EnterNested(m, open, terminal, at);
      }
    case ExitEvent(_, at) => ExitNested(m, open, Step(m, e).s, at);
    case StopEvent(at) => StopNested(m, open, at);
  }

  lemma StopNested(m: Machine, open: seq<nat>, at: int)
    requires NestedInv(m, open) && m.clock <= at
    ensures NestedInv(Machine(StopRecording(m.s, at), at), open)
  {
    var m' := Machine(StopRecording(m.s, at), at);
    forall k: nat | k < |open|
      ensures OpenAt(m'.s, open, k) && FitsAt(m', open, k)
    {
      assert OpenAt(m.s, open, k);
      assert FitsAt(m, open, k);
    }
  }

  lemma WaitNested(m: Machine, open: seq<nat>, at: int)
    requires NestedInv(m, open) && m.clock <= at
    ensures NestedInv(Machine(m.s, at), open)
  {
    forall k: nat | k < |open|
      ensures FitsAt(Machine(m.s, at), open, k)
    {
      assert FitsAt(m, open, k);
    }
  }

  lemma {:induction false} NestedRunsKeep(start: int, es: seq<Event>)
    requires ValidRun(start, es) && Nested(start, es)
    ensures NestedInv(After(start, es), Open(start, es))
    decreases |es|
  {
    if |es| == 0 {
      assert TraceWalk.Sum([0]) == TraceWalk.Sum([]);
      assert FitsAt(After(start, es), [0], 0);
    } else {
      NestedRunsKeep(start, es[..|es| - 1]);
      StepNested(After(start, es[..|es| - 1]), Open(start, es[..|es| - 1]), es[|es| - 1]);
    }
  }

  // ----- results -----------------------------------------------------------------------

  /** No exit is ever clamped. */
  lemma NothingClamped(start: int, es: seq<Event>, at: int)
    requires ValidRun(start, es) && Nested(start, es) && After(start, es).clock <= at
    requires |Open(start, es)| > 1
    ensures var open := Open(start, es); var i := open[|open| - 1]; var s := After(start, es).s;
      && i < |s.traces| == |s.exclusive|
      && ExclusiveAtExit(s.exclusive[i], DurationAt(s, i, at)) == s.exclusive[i] + DurationAt(s, i, at)
  {
    NestedRunsKeep(start, es);
    NotClamped(After(start, es), Open(start, es), at);
  }

  lemma {:induction false} AllButRoot(s: State, n: nat)
    requires 0 < n <= |s.traces| == |s.exclusive|
    requires forall j: nat | 0 < j < |s.traces| :: Completed(s, j)
    ensures CompletedExclusive(s, n) == TraceWalk.Sum(s.exclusive[..n]) - s.exclusive[0]
  {
    if n == 1 {
      assert s.exclusive[..1] == [s.exclusive[0]];
      assert TraceWalk.Sum([s.exclusive[0]]) == TraceWalk.Sum([]) + s.exclusive[0];
      assert CompletedExclusive(s, 1) == CompletedExclusive(s, 0);
    } else {
      AllButRoot(s, n - 1);
      assert s.exclusive[..n][..n - 1] == s.exclusive[..n - 1];
    }
  }

  lemma AllCompleted(m: Machine)
    requires NestedInv(m, [0])
    requires m.s.totalTime == CompletedExclusive(m.s, |m.s.traces|)
    ensures m.s.totalTime == -m.s.exclusive[0]
    ensures m.s.startTime <= EffectiveTime(m.s, m.clock)
    ensures 0 <= m.s.exclusive[0] + EffectiveTime(m.s, m.clock) - m.s.startTime
  {
    forall j: nat | 0 < j < |m.s.traces|
      ensures Completed(m.s, j)
    {
      assert m.s.traces[j].parent.Some? ==> j in [0];
    }
    AllButRoot(m.s, |m.s.traces|);
    assert m.s.exclusive[..|m.s.traces|] == m.s.exclusive;
    assert FitsAt(m, [0], 0);
  }

  /** Main result: when every trace has completed, the total time the transaction records
      is its duration, wherever stop_recording fell in the run. */
  lemma TotalTimeIsDuration(start: int, es: seq<Event>, now: int)
    requires ValidRun(start, es) && Nested(start, es) && After(start, es).clock <= now
    requires Open(start, es) == [0]
    ensures var totals := FinishTransaction(After(start, es).s, now);
      && totals.totalTime == totals.duration
      && 0 <= totals.exclusive
  {
    var m := After(start, es);
    NestedRunsKeep(start, es);
    assert m.s.totalTime == CompletedExclusive(m.s, |m.s.traces|) by {
      ReachableTreesKeepInvariant(start, es);
    }
    AllCompleted(m);
  }
}
