/** The objects of newrelic/api/time_trace.py and the tracing fields of
    newrelic/api/transaction.py.  Every method changes fields in place along the tree and
    is proved to do what TraceModel says to the value that the objects represent. */
module TimeTraceObjects {
  import opened Prelude
  import M = TraceModel

  /** The number of a trace; 0 for one that has none. */
  ghost function NumberOf(index: map<TimeTrace, nat>, t: TimeTrace): nat {
    if t in index then index[t] else 0
  }

  ghost function Numbers(index: map<TimeTrace, nat>, ts: seq<TimeTrace>): (ns: seq<nat>)
    ensures |ns| == |ts| && forall k: nat | k < |ts| :: ns[k] == NumberOf(index, ts[k])
  {
    seq(|ts|, k requires 0 <= k < |ts| => NumberOf(index, ts[k]))
  }

  lemma SameNumbers(a: map<TimeTrace, nat>, b: map<TimeTrace, nat>, ts: seq<TimeTrace>)
    requires forall t | t in ts :: t in a && t in b && a[t] == b[t]
    ensures Numbers(a, ts) == Numbers(b, ts)
  {
  }

  /** One step of the walk on values. */
  lemma WalkGoesOn(s: M.State, i: nat, m: int, d: int, r: M.State, p: nat)
    requires M.WellFormed(s) && i < |s.traces| && s.traces[i].parent == Some(p)
    requires r == s.(exclusive := s.exclusive[i := s.exclusive[i] - M.Delta(s.traces[i], m, d)])
    requires d - M.Delta(s.traces[i], m, d) > 0
    ensures var t := s.traces[i];
      M.UpdateAsyncExclusiveTime(s, i, m, d)
      == M.UpdateAsyncExclusiveTime(r, p, M.NextStart(t, m), d - M.Delta(t, m, d))
  {
  }

  class TimeTrace {
    var parent: TimeTrace?
    var root: TimeTrace?
    var transaction: Transaction?   // set on the Sentinel only
    const terminal: bool
    var childCount: nat
    var children: seq<TimeTrace>
    var startTime: int
    var endTime: int
    var duration: int
    var exclusive: int
    var activated: bool
    var exited: bool
    var isAsync: bool
    var hasAsyncChildren: bool
    var minChildStartTime: Option<int>
    var nodeCount: nat

    constructor (parent: TimeTrace?, terminal: bool)
      ensures this.parent == parent && this.terminal == terminal
      ensures Unused()
    {
      this.parent, this.root, this.transaction, this.terminal := parent, null, null, terminal;
      childCount, children := 0, [];
      startTime, endTime, duration, exclusive := 0, 0, 0, 0;
      activated, exited, isAsync, hasAsyncChildren := false, false, false, false;
      minChildStartTime, nodeCount := None, 0;
    }

    /** As left by the constructor. */
    ghost predicate Unused()
      reads this
    {
      && transaction == null
      && childCount == 0 && children == [] && startTime == 0 && endTime == 0 && duration == 0 && exclusive == 0
      && !activated && !exited && !isAsync && !hasAsyncChildren && minChildStartTime.None? && nodeCount == 0
    }

    /** The traces this one refers to are numbered. */
    ghost predicate Known(index: map<TimeTrace, nat>)
      reads this
    {
      && (parent != null ==> parent in index)
      && (forall c | c in children :: c in index)
    }

    /** The value this object represents, but for its exclusive time. */
    ghost function Record(index: map<TimeTrace, nat>): M.Trace
      reads this
    {
      M.Trace(if parent == null then None else Some(NumberOf(index, parent)), terminal, childCount,
              Numbers(index, children),
              startTime, endTime, duration, exited, isAsync, hasAsyncChildren, minChildStartTime, nodeCount)
    }

    lemma FreshRecord(index: map<TimeTrace, nat>)
      requires parent != null && parent in index && children == []
      requires childCount == 0 && endTime == 0 && duration == 0 && exclusive == 0 && minChildStartTime.None?
      requires !exited && !isAsync && !hasAsyncChildren && nodeCount == 0
      ensures Record(index) == M.NewTrace(Some(index[parent]), terminal, startTime)
    {
      assert Numbers(index, children) == [];
    }

    predicate HasOutstandingChildren()
      reads this
    {
      |children| != childCount
    }

    predicate ReadyToComplete()
      reads this
    {
      if !exited then false
      else if HasOutstandingChildren() then false
      else true
    }

    // ----- entering --------------------------------------------------------------------

    method IncrementChildCount(ghost txn: Transaction)
      requires txn.Model().Some? && this in txn.index
      modifies this`childCount, this`hasAsyncChildren
      ensures var s := old(txn.Model()).value; var i := txn.index[this];
        txn.Model() == Some(s.(traces := s.traces[i := M.IncrementChildCount(s.traces[i])]))
    {
      childCount := childCount + 1;
      hasAsyncChildren := childCount - |children| > 1;
      txn.FieldsChanged(this);
      assert Record(txn.index) == M.IncrementChildCount(old(Record(txn.index)));
    }

    /** Enters under `parent`, or under the current trace when none was given. */
    method Enter(current: TimeTrace?, now: int, ghost txn: Transaction)
      requires txn.Model().Some? && Unused() && this !in txn.index
      requires parent != null ==> parent in txn.index
      requires current != null ==> current in txn.index
      modifies this, txn`traces, txn`index, txn.traces`childCount, txn.traces`hasAsyncChildren
      ensures var s, p := old(txn.Model()).value, if old(parent) != null then old(parent) else current;
        if p == null then txn.Model() == Some(s) && parent == null && !activated
        else var i := old(txn.index[p]);
             txn.Model() == Some(M.Enter(s, i, terminal, now)) && (activated <==> !M.Refused(s, i))
    {
      assert this !in txn.traces;
      if parent == null {
        parent := current;
      }
      if parent == null {
        return;
      }
      EnterUnder(now, txn);
    }

    /** __enter__ with a parent at hand: refused, or activated as its child. */
    method EnterUnder(now: int, ghost txn: Transaction)
      requires txn.Model().Some? && Unused() && this !in txn.index
      requires parent != null && parent in txn.index
      modifies this, txn`traces, txn`index, txn.traces`childCount, txn.traces`hasAsyncChildren
      ensures var s, i := old(txn.Model()).value, old(txn.index[parent]);
        txn.Model() == Some(M.Enter(s, i, terminal, now)) && (activated <==> !M.Refused(s, i))
    {
      txn.Reads(parent);
      assert this !in txn.traces;
      if parent.exited || parent.terminal {
        parent := null;
        return;
      }
      var transaction := parent.root.transaction;
      if transaction.stopped {
        parent := null;
        return;
      }
      parent.IncrementChildCount(txn);
      Activate(parent.root, now, txn);
    }

    /** The writes of __enter__ once the parent has counted this child. */
    method Activate(root: TimeTrace, now: int, ghost txn: Transaction)
      requires txn.Model().Some? && Unused() && this !in txn.index
      requires parent != null && parent in txn.index && root == txn.rootSpan
      modifies this`root, this`startTime, this`activated, txn`traces, txn`index
      ensures activated
      ensures var s := old(txn.Model()).value;
        txn.Model() == Some(s.(traces := s.traces + [M.NewTrace(Some(old(txn.index)[parent]), terminal, now)],
                               exclusive := s.exclusive + [0]))
    {
      this.root := root;
      startTime := now;
      activated := true;
      FreshRecord(txn.index[this := |txn.traces|]);
      txn.Number(this);
    }

    // ----- completing ------------------------------------------------------------------

    method Charge(delta: int, ghost txn: Transaction)
      requires txn.Model().Some? && this in txn.index
      modifies this`exclusive
      ensures var s := old(txn.Model()).value; var i := txn.index[this];
        txn.Model() == Some(s.(exclusive := s.exclusive[i := s.exclusive[i] - delta]))
    {
      exclusive := exclusive - delta;
      txn.LinksKept(this);
      txn.OnlyExclusive(txn.index[this]);
    }

    /** The part of one trace; what is left goes on to its parent. */
    method ChargeOwn(m: int, d: int, ghost txn: Transaction) returns (start: int, remaining: int)
      requires txn.Model().Some? && this in txn.index
      modifies this`exclusive
      ensures var s := old(txn.Model()).value; var i := txn.index[this]; var t := s.traces[i];
        && start == M.NextStart(t, m) && remaining == d - M.Delta(t, m, d)
        && t.parent == (if parent == null then None else Some(NumberOf(txn.index, parent)))
        && (parent != null ==> parent in txn.index && txn.index[parent] < i)
        && txn.Model() == Some(s.(exclusive := s.exclusive[i := s.exclusive[i] - M.Delta(t, m, d)]))
    {
      txn.Reads(this);
      var delta := if exited && endTime < m then 0 else if exited then endTime - m else d;
      start := if exited && endTime >= m then endTime else m;
      Charge(delta, txn);
      remaining := d - delta;
    }

    method UpdateAsyncExclusiveTime(m: int, d: int, ghost txn: Transaction)
      requires txn.Model().Some? && this in txn.index
      modifies txn.traces`exclusive
      ensures var s := old(txn.Model()).value;
        txn.Model() == Some(s.(exclusive := M.UpdateAsyncExclusiveTime(s, txn.index[this], m, d)))
      decreases txn.index[this]
    {
      ghost var s, i := txn.Model().value, txn.index[this];
      var start, remaining := ChargeOwn(m, d, txn);
      if parent != null && remaining > 0 {
        WalkGoesOn(s, i, m, d, txn.Model().value, txn.index[parent]);
        parent.UpdateAsyncExclusiveTime(start, remaining, txn);
      }
    }

    method AppendChild(node: TimeTrace, ghost txn: Transaction)
      requires txn.Model().Some? && this in txn.index && node in txn.index
      modifies this`children
      ensures children == old(children) + [node]
      ensures txn.Model() == Some(M.AppendChild(old(txn.Model()).value, txn.index[this], txn.index[node]))
    {
      txn.Reads(this);
      assert txn.Linked(txn.index[this]);
      children := children + [node];
      assert Numbers(txn.index, children) == old(Numbers(txn.index, children)) + [txn.index[node]];
      txn.Relinked(txn.index[this]);
      txn.OnlyRecord(txn.index[this]);
    }

    method SetMinChildStart(m: Option<int>, ghost txn: Transaction)
      requires txn.Model().Some? && this in txn.index
      modifies this`minChildStartTime
      ensures txn.Model() == Some(M.SetMinChildStart(old(txn.Model()).value, txn.index[this], m))
    {
      minChildStartTime := m;
      txn.FieldsChanged(this);
    }

    /** No child is running any more: charge the batch and reset the time range tracking. */
    method FinishBatch(m: int, d: int, ghost txn: Transaction)
      requires txn.Model().Some? && this in txn.index
      modifies this`minChildStartTime, txn.traces`exclusive
      ensures txn.Model() == Some(M.FinishBatch(old(txn.Model()).value, txn.index[this], m, d))
    {
      UpdateAsyncExclusiveTime(m, d, txn);
      SetMinChildStart(None, txn);
    }

    /** Records the lowest start time of the batch. */
    method RecordStart(node: TimeTrace, ghost txn: Transaction) returns (m: int)
      requires txn.Model().Some? && this in txn.index && node in txn.index
      modifies this`minChildStartTime
      ensures var s := old(txn.Model()).value; var i, c := txn.index[this], txn.index[node];
        && m == M.EarliestStart(s.traces[i], s.traces[c]) && node.endTime == s.traces[c].endTime
        && HasOutstandingChildren() == M.HasOutstandingChildren(s.traces[i])
        && txn.Model() == Some(M.SetMinChildStart(s, i, Some(m)))
    {
      txn.Reads(this);
      txn.Reads(node);
      m := if minChildStartTime.None? then node.startTime else Min(minChildStartTime.value, node.startTime);
      SetMinChildStart(Some(m), txn);
    }

    /** The async branch of `process_child`: record the lowest start time; if there are no
        children running, finalize the exclusive time. */
    method AddToBatch(node: TimeTrace, ghost txn: Transaction)
      requires txn.Model().Some? && this in txn.index && node in txn.index
      modifies this`minChildStartTime, txn.traces`exclusive
      ensures txn.Model() == Some(M.AddToBatch(old(txn.Model()).value, txn.index[this], txn.index[node]))
    {
      ghost var s, i, c := txn.Model().value, txn.index[this], txn.index[node];
      var m := RecordStart(node, txn);
      if childCount == |children| {
        ghost var s1 := txn.Model().value;
        var d := node.endTime - m;
        assert M.AddToBatch(s, i, c) == M.FinishBatch(s1, i, m, d);
        FinishBatch(m, d, txn);
      }
    }

    method ProcessChild(node: TimeTrace, isAsync: bool, ghost txn: Transaction)
      requires txn.Model().Some? && this in txn.index && node in txn.index
      modifies this`children, this`minChildStartTime, txn.traces`exclusive
      ensures txn.Model() == Some(M.ProcessChild(old(txn.Model()).value, txn.index[this], txn.index[node], isAsync))
    {
      ghost var s, i, c := txn.Model().value, txn.index[this], txn.index[node];
      AppendChild(node, txn);
      if isAsync {
        AddToBatch(node, txn);
      } else {
        txn.Reads(node);
        ghost var s1 := txn.Model().value;
        assert M.ProcessChild(s, i, c, false) == s1.(exclusive := s1.exclusive[i := s1.exclusive[i] - node.duration]);
        Charge(node.duration, txn);
      }
    }

    method Exit(now: int, ghost txn: Transaction)
      requires txn.Model().Some? && this in txn.index && transaction == null && activated
      modifies txn`traceNodeCount, txn`totalTime, txn.traces
      ensures txn.Model() == Some(M.Exit(old(txn.Model()).value, txn.index[this], now))
    {
      txn.Reads(this);
      if parent == null || !activated {
        return;
      }
      Mark(now, txn);
      if ReadyToComplete() {
        CompleteThisTrace(txn);
      }
    }

    /** A stopped transaction pins the end time; it is never before the start. */
    method EndReading(now: int, ghost txn: Transaction) returns (end: int)
      requires txn.Model().Some? && this in txn.index && parent != null
      ensures end == Max(M.EffectiveTime(txn.Model().value, now), startTime)
    {
      txn.Reads(this);
      var transaction := root.transaction;
      end := if transaction.stopped then transaction.endTime else now;
      if end < startTime {
        end := startTime;
      }
    }

    /** The end time, the duration and the exclusive time. */
    method Mark(now: int, ghost txn: Transaction)
      requires txn.Model().Some? && this in txn.index && parent != null
      modifies this`endTime, this`duration, this`exclusive, this`exited
      ensures txn.Model() == Some(M.Marked(old(txn.Model()).value, txn.index[this], now))
      ensures exited
    {
      txn.Reads(this);
      var end := EndReading(now, txn);
      SetEnd(end, txn);
    }

    method SetEnd(end: int, ghost txn: Transaction)
      requires txn.Model().Some? && this in txn.index && parent != null
      modifies this`endTime, this`duration, this`exclusive, this`exited
      ensures var s := old(txn.Model()).value; var i := txn.index[this]; var t := s.traces[i];
        txn.Model() == Some(s.(
          traces := s.traces[i := t.(endTime := end, duration := end - t.startTime, exited := true)],
          exclusive := s.exclusive[i := Max(s.exclusive[i] + (end - t.startTime), 0)]))
      ensures exited
    {
      txn.Reads(this);
      ghost var was := Record(txn.index);
      endTime := end;
      duration := endTime - startTime;
      exclusive := Max(exclusive + duration, 0);
      exited := true;
      assert Record(txn.index) == was.(endTime := end, duration := duration, exited := true);
      txn.LinksKept(this);
      txn.OneChanged(txn.index[this]);
    }

    /** Called by children whose completion may have been the last one awaited. */
    method CompleteTrace(ghost txn: Transaction)
      requires txn.Model().Some? && this in txn.index
      modifies txn`traceNodeCount, txn`totalTime, txn.traces
      ensures txn.Model() == Some(M.CompleteTrace(old(txn.Model()).value, txn.index[this]))
      ensures txn.traces == old(txn.traces) && txn.index == old(txn.index)
      decreases txn.index[this], 1
    {
      txn.Reads(this);
      if transaction != null {
        return;                               // the Sentinel's complete_trace does nothing
      }
      if ReadyToComplete() {
        CompleteThisTrace(txn);
      }
    }

    /** `_complete_trace`. */
    method CompleteThisTrace(ghost txn: Transaction)
      requires txn.Model().Some? && this in txn.index && transaction == null && ReadyToComplete()
      modifies txn`traceNodeCount, txn`totalTime, txn.traces
      ensures txn.Model() == Some(M.CompleteTrace(old(txn.Model()).value, txn.index[this]))
      ensures txn.traces == old(txn.traces) && txn.index == old(txn.index)
      decreases txn.index[this], 0
    {
      txn.Reads(this);
      if parent == null {
        return;
      }
      var p := CompleteIntoParent(txn);
      p.CompleteTrace(txn);
    }

    /** All of it but the call that lets the parent complete. */
    method CompleteIntoParent(ghost txn: Transaction) returns (p: TimeTrace)
      requires txn.Model().Some? && this in txn.index && parent != null && ReadyToComplete()
      modifies txn`traceNodeCount, txn`totalTime, txn.traces
      ensures p == old(parent) && p in txn.index && txn.index[p] < txn.index[this]
      ensures var s := old(txn.Model()).value; var i := txn.index[this];
        s.traces[i].parent == Some(txn.index[p]) && txn.Model() == Some(M.CompleteOne(s, i))
      ensures txn.traces == old(txn.traces) && txn.index == old(txn.index)
    {
      txn.Reads(this);
      p := parent;
      var transaction := root.transaction;
      Detach(txn);
      transaction.ProcessNode(this);
      p.ProcessChild(this, isAsync, txn);
    }

    /** The async verdict and the wiped references. */
    method Detach(ghost txn: Transaction)
      requires txn.Model().Some? && this in txn.index && parent != null && ReadyToComplete()
      modifies this`isAsync, this`parent, this`root
      ensures txn.Model() == Some(M.Detach(old(txn.Model()).value, txn.index[this]))
      ensures isAsync == old(parent.exited || parent.hasAsyncChildren)
    {
      txn.Reads(this);
      txn.Reads(parent);
      Wipe(parent.exited || parent.hasAsyncChildren, txn);
    }

    method Wipe(verdict: bool, ghost txn: Transaction)
      requires txn.Model().Some? && this in txn.index && parent != null && ReadyToComplete()
      modifies this`isAsync, this`parent, this`root
      ensures var s := old(txn.Model()).value; var i := txn.index[this];
        txn.Model() == Some(s.(traces := s.traces[i := s.traces[i].(isAsync := verdict, parent := None)]))
      ensures isAsync == verdict
    {
      txn.Reads(this);
      ghost var was := Record(txn.index);
      if verdict {
        isAsync := true;
      }
      parent := null;
      root := null;
      assert Record(txn.index) == was.(isAsync := verdict, parent := None);
      txn.Relinked(txn.index[this]);
      txn.OnlyRecord(txn.index[this]);
    }
  }

  class Transaction {
    var rootSpan: TimeTrace
    var stopped: bool
    var startTime: int
    var endTime: int
    var totalTime: int
    var traceNodeCount: nat
    ghost var traces: seq<TimeTrace>           // the activated traces, in order
    ghost var index: map<TimeTrace, nat>       // and the number of each

    /** Transaction.__enter__: records the start and pushes the Sentinel. */
    constructor (now: int)
      ensures fresh(rootSpan) && traces == [rootSpan]
      ensures Model() == Some(M.Start(now))
    {
      var root := new TimeTrace(null, false);
      rootSpan := root;
      stopped, startTime, endTime, totalTime, traceNodeCount := false, now, 0, 0, 0;
      traces, index := [root], map[root := 0];
      new;
      root.root, root.transaction := root, this;
      assert Linked(0);
      assert View().traces == [root.Record(index)] && View().exclusive == [0];
    }

    ghost predicate Numbering()
      reads this
    {
      && |traces| > 0 && traces[0] == rootSpan
      && (forall i: nat | i < |traces| :: traces[i] in index && index[traces[i]] == i)
      && (forall t | t in index :: index[t] < |traces| && traces[index[t]] == t)
    }

    /** Trace i refers to numbered traces only; its parent is older; while it is incomplete
        it knows the Sentinel and through it the transaction. */
    ghost predicate Linked(i: nat)
      reads this, traces
      requires i < |traces|
    {
      var t := traces[i];
      && t.Known(index)
      && (t.parent != null ==> index[t.parent] < i && !t.isAsync)
      && (if i == 0 then t.parent == null && t.transaction == this && t.root == t
          else t.transaction == null && (t.parent != null || !t.exited ==> t.root == rootSpan && t.activated))
    }

    ghost predicate Valid()
      reads this, traces
    {
      Numbering() && forall i: nat | i < |traces| :: Linked(i)
    }

    ghost function View(): (s: M.State)
      reads this, traces
      ensures |s.traces| == |s.exclusive| == |traces|
    {
      M.State(
        seq(|traces|, i requires 0 <= i < |traces| reads this, traces => traces[i].Record(index)),
        seq(|traces|, i requires 0 <= i < |traces| reads this, traces => traces[i].exclusive),
        stopped, startTime, endTime, totalTime, traceNodeCount)
    }

    lemma ViewIsWellFormed()
      requires Valid()
      ensures M.WellFormed(View())
    {
      forall i: nat | i < |traces|
        ensures i == 0 ==> traces[i].parent == null
        ensures traces[i].parent != null ==> NumberOf(index, traces[i].parent) < i
      {
        assert Linked(i);
      }
    }

    /** The value the objects represent, if they are in order. */
    ghost function Model(): (s: Option<M.State>)
      reads this, traces
      ensures s.Some? ==> M.WellFormed(s.value) && |s.value.traces| == |traces| && Numbering()
    {
      if Valid() then
        ViewIsWellFormed();
        Some(View())
      else None
    }

    lemma Reads(t: TimeTrace)
      requires Valid() && t in index
      ensures t.Known(index) && t in traces
      ensures Model().value.traces[index[t]] == t.Record(index)
      ensures Model().value.exclusive[index[t]] == t.exclusive
      ensures t.transaction != null <==> index[t] == 0
      ensures index[t] == 0 ==> t == rootSpan
      ensures t.parent != null || !t.exited ==> t.root == rootSpan
      ensures rootSpan.root == rootSpan && rootSpan.transaction == this
      ensures t.parent != null ==> !t.isAsync && index[t.parent] < index[t]
    {
      assert Linked(index[t]) && Linked(0);
    }

    /** No trace changes. */
    twostate lemma LinksSame()
      requires old(Valid()) && rootSpan == old(rootSpan) && traces == old(traces) && index == old(index)
      requires forall k: nat | k < |traces| :: unchanged(traces[k])
      ensures Valid()
    {
      forall i: nat | i < |traces|
        ensures Linked(i)
      {
        assert old(Linked(i));
      }
    }

    /** One trace changes, perhaps exits, and keeps its references. */
    twostate lemma LinksKept(t: TimeTrace)
      requires old(Valid()) && rootSpan == old(rootSpan) && traces == old(traces) && index == old(index) && t in index
      requires t.parent == old(t.parent) && t.root == old(t.root) && t.transaction == old(t.transaction)
      requires t.children == old(t.children) && t.activated == old(t.activated) && t.isAsync == old(t.isAsync)
      requires old(t.exited) ==> t.exited
      requires forall k: nat | k < |traces| && traces[k] != t :: unchanged(traces[k])
      ensures Valid()
    {
      forall k: nat | k < |traces|
        ensures Linked(k)
      {
        assert old(Linked(k));
      }
    }

    twostate lemma Relinked(i: nat)
      requires old(Valid()) && rootSpan == old(rootSpan) && traces == old(traces) && index == old(index)
      requires i < |traces| && Linked(i)
      requires forall k: nat | k < |traces| && k != i :: unchanged(traces[k])
      ensures Valid()
    {
      forall k: nat | k < |traces|
        ensures Linked(k)
      {
        assert old(Linked(k));
      }
    }

    /** Only the object with number i changed, and nothing it refers to. */
    twostate lemma OneChanged(i: nat)
      requires old(Valid()) && Valid() && traces == old(traces) && index == old(index) && i < |traces|
      requires stopped == old(stopped) && startTime == old(startTime) && endTime == old(endTime)
      requires forall k: nat | k < |traces| && k != i :: unchanged(traces[k])
      ensures Model() == Some(old(View()).(traces := old(View()).traces[i := traces[i].Record(index)],
                                           exclusive := old(View()).exclusive[i := traces[i].exclusive],
                                           totalTime := totalTime, nodeCount := traceNodeCount))
    {
      assert View().traces == old(View()).traces[i := traces[i].Record(index)];
      assert View().exclusive == old(View()).exclusive[i := traces[i].exclusive];
    }

    /** Its exclusive time did not. */
    twostate lemma OnlyRecord(i: nat)
      requires old(Valid()) && Valid() && traces == old(traces) && index == old(index) && i < |traces|
      requires stopped == old(stopped) && startTime == old(startTime) && endTime == old(endTime)
      requires forall k: nat | k < |traces| && k != i :: unchanged(traces[k])
      requires traces[i].exclusive == old(traces[i].exclusive)
      ensures Model() == Some(old(View()).(traces := old(View()).traces[i := traces[i].Record(index)],
                                           totalTime := totalTime, nodeCount := traceNodeCount))
    {
      OneChanged(i);
      assert old(View()).exclusive[i := traces[i].exclusive] == old(View()).exclusive;
    }

    /** It kept its references as well. */
    twostate lemma FieldsChanged(t: TimeTrace)
      requires old(Valid()) && rootSpan == old(rootSpan) && traces == old(traces) && index == old(index) && t in index
      requires stopped == old(stopped) && startTime == old(startTime) && endTime == old(endTime)
      requires t.parent == old(t.parent) && t.root == old(t.root) && t.transaction == old(t.transaction)
      requires t.children == old(t.children) && t.activated == old(t.activated) && t.isAsync == old(t.isAsync)
      requires t.exited == old(t.exited) && t.exclusive == old(t.exclusive)
      requires forall k: nat | k < |traces| && traces[k] != t :: unchanged(traces[k])
      ensures Model() == Some(old(View()).(traces := old(View()).traces[index[t] := t.Record(index)],
                                           totalTime := totalTime, nodeCount := traceNodeCount))
    {
      LinksKept(t);
      OnlyRecord(index[t]);
    }

    /** Or nothing but that. */
    twostate lemma OnlyExclusive(i: nat)
      requires old(Valid()) && Valid() && traces == old(traces) && index == old(index) && i < |traces|
      requires stopped == old(stopped) && startTime == old(startTime) && endTime == old(endTime)
      requires totalTime == old(totalTime) && traceNodeCount == old(traceNodeCount)
      requires forall k: nat | k < |traces| && k != i :: unchanged(traces[k])
      requires traces[i].Record(index) == old(traces[i].Record(index))
      ensures Model() == Some(old(View()).(exclusive := old(View()).exclusive[i := traces[i].exclusive]))
    {
      OneChanged(i);
      assert old(View()).traces[i := traces[i].Record(index)] == old(View()).traces;
    }

    /** A new object was numbered last. */
    twostate lemma Appended()
      requires old(Valid()) && Valid() && |traces| == |old(traces)| + 1 && traces[..|old(traces)|] == old(traces)
      requires forall t | t in old(index) :: t in index && index[t] == old(index)[t]
      requires forall k: nat | k < |old(traces)| :: unchanged(old(traces)[k])
      ensures View().traces == old(View()).traces + [traces[|old(traces)|].Record(index)]
      ensures View().exclusive == old(View()).exclusive + [traces[|old(traces)|].exclusive]
    {
      forall k: nat | k < |old(traces)|
        ensures traces[k].Record(index) == old(traces[k].Record(index))
      {
        assert traces[k] == traces[..|old(traces)|][k] && old(Linked(k)) && Linked(k);
        SameNumbers(old(index), index, traces[k].children);
      }
    }

    ghost method Number(t: TimeTrace)
      requires Model().Some? && t !in index && t.transaction == null && t.root == rootSpan && t.activated && !t.isAsync
      requires t.parent != null && t.parent in index && t.children == []
      modifies this`traces, this`index
      ensures index == old(index)[t := |old(traces)|] && traces == old(traces) + [t]
      ensures t.Known(index)
      ensures var s := old(Model()).value;
        Model() == Some(s.(traces := s.traces + [t.Record(index)], exclusive := s.exclusive + [t.exclusive]))
    {
      index := index[t := |traces|];
      traces := traces + [t];
      forall k: nat | k < |traces|
        ensures Linked(k)
      {
        if k < |old(traces)| {
          assert old(Linked(k));
        }
      }
      Appended();
    }

    method ProcessNode(node: TimeTrace)
      requires Model().Some? && node in index
      modifies this`traceNodeCount, this`totalTime, node`nodeCount
      ensures Model() == Some(M.ProcessNode(old(Model()).value, index[node]))
    {
      traceNodeCount := traceNodeCount + 1;
      node.nodeCount := traceNodeCount;
      totalTime := totalTime + node.exclusive;
      FieldsChanged(node);
    }

    method StopRecording(now: int)
      requires Model().Some?
      modifies this`stopped, this`endTime
      ensures Model() == Some(M.StopRecording(old(Model()).value, now))
    {
      if stopped || endTime != 0 {
        return;
      }
      endTime := now;
      stopped := true;
      LinksSame();
      assert View().traces == old(View()).traces && View().exclusive == old(View()).exclusive;
    }

    /** The time totals of Transaction.__exit__. */
    method Finish(now: int) returns (totals: M.Totals)
      requires Model().Some?
      modifies this`endTime, this`totalTime, rootSpan`exited
      ensures totals == M.FinishTransaction(old(Model()).value, now)
      ensures totalTime == totals.totalTime
    {
      Reads(rootSpan);
      rootSpan.exited := true;
      if !stopped {
        endTime := now;
      }
      var elapsed := endTime - startTime;
      var exclusive := elapsed + rootSpan.exclusive;
      totalTime := totalTime + exclusive;
      totals := M.Totals(elapsed, exclusive, totalTime);
    }
  }
}
