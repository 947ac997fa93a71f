/** The trace tree of one transaction as a value: what the methods of TimeTrace and
    Transaction do to it, step by step.  Traces are numbered in the order in which they
    were activated; number 0 is the transaction's Sentinel. */
module TraceModel {
  import opened Prelude

  /** The fields of one activated trace but for `exclusive`.  `parent` is the live reference:
      it is wiped when the trace completes.  `minChildStart == None` stands for infinity. */
  datatype Trace = Trace(
    parent: Option<nat>,
    terminal: bool,
    childCount: nat,
    children: seq<nat>,
    startTime: int,
    endTime: int,
    duration: int,
    exited: bool,
    isAsync: bool,
    hasAsyncChildren: bool,
    minChildStart: Option<int>,
    nodeCount: nat)

  /** A transaction: its traces, the exclusive time of each of them (kept apart because other
      traces change it), and the fields of Transaction that tracing touches. */
  datatype State = State(
    traces: seq<Trace>,
    exclusive: seq<int>,
    stopped: bool,
    startTime: int,
    endTime: int,
    totalTime: int,
    nodeCount: nat)

  /** A parent was activated before its children, so walking up the tree ends. */
  predicate WellFormed(s: State) {
    && |s.traces| == |s.exclusive| > 0
    && s.traces[0].parent == None
    && (forall i | 0 <= i < |s.traces| ::
          s.traces[i].parent.Some? ==> s.traces[i].parent.value < i)
  }

  function NewTrace(parent: Option<nat>, terminal: bool, start: int): Trace {
    Trace(parent, terminal, 0, [], start, 0, 0, false, false, false, None, 0)
  }

  function Start(now: int): State {
    State([NewTrace(None, false, 0)], [0], false, now, 0, 0, 0)
  }

  // ----- entering ----------------------------------------------------------------------

  function IncrementChildCount(t: Trace): Trace {
    t.(childCount := t.childCount + 1,
       hasAsyncChildren := t.childCount + 1 - |t.children| > 1)
  }

  /** TimeTrace.__enter__ refuses to trace under such a parent. */
  predicate Refused(s: State, p: nat)
    requires p < |s.traces|
  {
    s.traces[p].exited || s.traces[p].terminal || s.stopped
  }

  function Enter(s: State, p: nat, terminal: bool, now: int): (r: State)
    requires WellFormed(s) && p < |s.traces|
    ensures WellFormed(r)
  {
    if Refused(s, p) then s
    else s.(traces := s.traces[p := IncrementChildCount(s.traces[p])]
                      + [NewTrace(Some(p), terminal, now)],
            exclusive := s.exclusive + [0])
  }

  // ----- completing --------------------------------------------------------------------

  predicate HasOutstandingChildren(t: Trace) {
    |t.children| != t.childCount
  }

  predicate ReadyToComplete(t: Trace) {
    t.exited && !HasOutstandingChildren(t)
  }

  /** What `update_async_exclusive_time` charges to one trace of the chain. */
  function Delta(t: Trace, m: int, d: int): int {
    if t.exited && t.endTime < m then 0
    else if t.exited then t.endTime - m
    else d
  }

  /** The start time that is handed on to the parent. */
  function NextStart(t: Trace, m: int): int {
    if t.exited && !(t.endTime < m) then t.endTime else m
  }

  function UpdateAsyncExclusiveTime(s: State, i: nat, m: int, d: int): (ex: seq<int>)
    requires WellFormed(s) && i < |s.traces|
    ensures |ex| == |s.exclusive|
    ensures forall k | i < k < |ex| :: ex[k] == s.exclusive[k]
    decreases i
  {
    var t := s.traces[i];
    var s' := s.(exclusive := s.exclusive[i := s.exclusive[i] - Delta(t, m, d)]);
    var remaining := d - Delta(t, m, d);
    if t.parent.Some? && remaining > 0 then
      UpdateAsyncExclusiveTime(s', t.parent.value, NextStart(t, m), remaining)
    else s'.exclusive
  }

  function EarliestStart(t: Trace, node: Trace): int {
    if t.minChildStart.None? then node.startTime else Min(t.minChildStart.value, node.startTime)
  }

  function AppendChild(s: State, p: nat, c: nat): (r: State)
    requires WellFormed(s) && p < |s.traces| && c < |s.traces|
    ensures WellFormed(r) && |r.traces| == |s.traces|
  {
    s.(traces := s.traces[p := s.traces[p].(children := s.traces[p].children + [c])])
  }

  function SetMinChildStart(s: State, p: nat, m: Option<int>): (r: State)
    requires WellFormed(s) && p < |s.traces|
    ensures WellFormed(r) && |r.traces| == |s.traces|
  {
    s.(traces := s.traces[p := s.traces[p].(minChildStart := m)])
  }

  /** The last child of a batch is in: charge the batch, reset the time range tracking. */
  function FinishBatch(s: State, p: nat, m: int, d: int): (r: State)
    requires WellFormed(s) && p < |s.traces|
    ensures WellFormed(r) && |r.traces| == |s.traces|
  {
    SetMinChildStart(s.(exclusive := UpdateAsyncExclusiveTime(s, p, m, d)), p, None)
  }

  /** The async branch of `process_child`, once the node has been appended. */
  function AddToBatch(s: State, p: nat, c: nat): (r: State)
    requires WellFormed(s) && p < |s.traces| && c < |s.traces|
    ensures WellFormed(r) && |r.traces| == |s.traces|
  {
    var m := EarliestStart(s.traces[p], s.traces[c]);
    var s' := SetMinChildStart(s, p, Some(m));
    if !HasOutstandingChildren(s.traces[p]) then FinishBatch(s', p, m, s.traces[c].endTime - m) else s'
  }

  function ProcessChild(s: State, p: nat, c: nat, isAsync: bool): (r: State)
    requires WellFormed(s) && p < |s.traces| && c < |s.traces|
    ensures WellFormed(r) && |r.traces| == |s.traces|
  {
    var s' := AppendChild(s, p, c);
    if isAsync then AddToBatch(s', p, c)
    else s'.(exclusive := s'.exclusive[p := s'.exclusive[p] - s'.traces[c].duration])
  }

  /** Transaction._process_node. */
  function ProcessNode(s: State, i: nat): (r: State)
    requires |s.traces| == |s.exclusive| && i < |s.traces|
  {
    s.(traces := s.traces[i := s.traces[i].(nodeCount := s.nodeCount + 1)],
       nodeCount := s.nodeCount + 1,
       totalTime := s.totalTime + s.exclusive[i])
  }

  /** The first writes of `_complete_trace`: the async verdict and the wiped parent. */
  function Detach(s: State, i: nat): (r: State)
    requires WellFormed(s) && i < |s.traces| && s.traces[i].parent.Some?
    ensures WellFormed(r) && |r.traces| == |s.traces|
  {
    var parent := s.traces[s.traces[i].parent.value];
    s.(traces := s.traces[i := s.traces[i].(isAsync := parent.exited || parent.hasAsyncChildren, parent := None)])
  }

  /** `_complete_trace` up to the call that lets the parent complete. */
  function CompleteOne(s: State, i: nat): (r: State)
    requires WellFormed(s) && i < |s.traces| && s.traces[i].parent.Some?
    ensures WellFormed(r) && |r.traces| == |s.traces|
  {
    var d := Detach(s, i);
    ProcessChild(ProcessNode(d, i), s.traces[i].parent.value, i, d.traces[i].isAsync)
  }

  /** `complete_trace` as called on trace i: completes it if it is ready and lets the
      completion climb.  The Sentinel overrides it with a no-op; a trace whose parent
      reference is gone only logs an error. */
  function CompleteTrace(s: State, i: nat): (r: State)
    requires WellFormed(s) && i < |s.traces|
    ensures WellFormed(r) && |r.traces| == |s.traces|
    decreases i
  {
    if i != 0 && ReadyToComplete(s.traces[i]) && s.traces[i].parent.Some? then
      CompleteTrace(CompleteOne(s, i), s.traces[i].parent.value)
    else s
  }

  // ----- exiting -----------------------------------------------------------------------

  function MarkExited(t: Trace, end: int): Trace {
    var e := Max(end, t.startTime);
    t.(endTime := e,
       duration := e - t.startTime,
       exited := true)
  }

  /** Adds the duration to the negative sum of what the children took; never below zero. */
  function ExclusiveAtExit(exclusive: int, duration: int): int {
    Max(exclusive + duration, 0)
  }

  /** The reading that __exit__ uses: a stopped transaction pins the end time. */
  function EffectiveTime(s: State, now: int): int {
    if s.stopped then s.endTime else now
  }

  /** The writes of __exit__ before completion is attempted. */
  function Marked(s: State, i: nat, now: int): (r: State)
    requires WellFormed(s) && i < |s.traces|
    ensures WellFormed(r) && |r.traces| == |s.traces|
  {
    var t := MarkExited(s.traces[i], EffectiveTime(s, now));
    s.(traces := s.traces[i := t],
       exclusive := s.exclusive[i := ExclusiveAtExit(s.exclusive[i], t.duration)])
  }

  function Exit(s: State, i: nat, now: int): (r: State)
    requires WellFormed(s) && i < |s.traces|
    ensures WellFormed(r) && |r.traces| == |s.traces|
  {
    if s.traces[i].parent.None? then s else CompleteTrace(Marked(s, i, now), i)
  }

  /** Transaction.stop_recording; `end_time` is zero until something sets it. */
  function StopRecording(s: State, now: int): State {
    if s.stopped || s.endTime != 0 then s else s.(endTime := now, stopped := true)
  }

  /** The time totals of Transaction.__exit__. */
  datatype Totals = Totals(duration: int, exclusive: int, totalTime: int)

  function FinishTransaction(s: State, now: int): Totals
    requires |s.exclusive| > 0
  {
    var duration := EffectiveTime(s, now) - s.startTime;
    var exclusive := duration + s.exclusive[0];
    Totals(duration, exclusive, s.totalTime + exclusive)
  }
}
