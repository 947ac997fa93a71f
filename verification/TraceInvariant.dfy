/** Runs of the trace tree: any interleaving of enters, exits and stop_recording on a
    non-decreasing clock, and what every reachable tree keeps. */
module TraceInvariant {
  import opened Prelude
  import opened TraceModel

  datatype Event =
    | EnterEvent(parent: nat, terminal: bool, at: int)
    | ExitEvent(trace: nat, at: int)
    | StopEvent(at: int)

  datatype Machine = Machine(s: State, clock: int)

  /** An event may happen now: the clock does not go back, the parent is an activated trace,
      and a trace is exited at most once. */
  predicate Enabled(m: Machine, e: Event) {
    && m.clock <= e.at
    && match e
       case EnterEvent(p, _, _) => p < |m.s.traces|
       case ExitEvent(i, _) => 0 < i < |m.s.traces| && !m.s.traces[i].exited
       case StopEvent(_) => true
  }

  function Step(m: Machine, e: Event): Machine
    requires WellFormed(m.s) && Enabled(m, e)
    ensures WellFormed(Step(m, e).s)
  {
    match e
    case EnterEvent(p, terminal, at) => Machine(Enter(m.s, p, terminal, at), at)
    case ExitEvent(i, at) => Machine(Exit(m.s, i, at), at)
    case StopEvent(at) => Machine(StopRecording(m.s, at), at)
  }

  predicate ValidRun(start: int, es: seq<Event>)
    decreases |es|, 0
  {
    |es| == 0 || (ValidRun(start, es[..|es| - 1]) && Enabled(After(start, es[..|es| - 1]), es[|es| - 1]))
  }

  function After(start: int, es: seq<Event>): (m: Machine)
    requires ValidRun(start, es)
    ensures WellFormed(m.s)
    decreases |es|, 1
  {
    if |es| == 0 then Machine(Start(start), start)
    else Step(After(start, es[..|es| - 1]), es[|es| - 1])
  }

  // ----- what a tree keeps -------------------------------------------------------------

  /** The activated children of i that have not completed. */
  function Outstanding(s: State, i: nat): set<nat> {
    set j: nat | j < |s.traces| && s.traces[j].parent == Some(i)
  }

  predicate Completed(s: State, i: nat)
    requires i < |s.traces|
  {
    i != 0 && s.traces[i].parent.None?
  }

  predicate Counted(s: State) {
    forall i: nat | i < |s.traces| ::
      s.traces[i].childCount - |s.traces[i].children| == |Outstanding(s, i)|
  }

  /** Only a trace that exited and has no outstanding child is complete; the converse holds
      for all but the trace whose completion is under way (0 when there is none). */
  predicate Settled(s: State, underWay: nat) {
    forall i: nat | 0 < i < |s.traces| ::
      && (Completed(s, i) ==> ReadyToComplete(s.traces[i]))
      && (i != underWay && ReadyToComplete(s.traces[i]) ==> Completed(s, i))
  }

  /** The async detection: without the flag at most one child is outstanding, and a
      recorded minimum start belongs to a batch that is still running. */
  predicate Detected(s: State) {
    forall i: nat | i < |s.traces| ::
      var t := s.traces[i];
      && (!t.hasAsyncChildren ==> t.childCount - |t.children| <= 1)
      && (t.minChildStart.Some? ==> t.childCount != |t.children| && (t.exited || t.hasAsyncChildren))
  }

  /** Completion numbers: exactly 1..nodeCount, each used by one completed trace. */
  predicate Numbered(s: State) {
    && (forall i: nat | i < |s.traces| ::
          if Completed(s, i) then 1 <= s.traces[i].nodeCount <= s.nodeCount else s.traces[i].nodeCount == 0)
    && (forall i: nat, j: nat | i < j < |s.traces| && Completed(s, i) && Completed(s, j) ::
          s.traces[i].nodeCount != s.traces[j].nodeCount)
    && (forall n: nat | 1 <= n <= s.nodeCount :: HasNumber(s, n))
  }

  predicate HasNumber(s: State, n: nat) {
    exists i: nat | i < |s.traces| :: Completed(s, i) && s.traces[i].nodeCount == n
  }

  /** The recorded child lists: completed traces in completion order, numbered before their
      parent (post-order), and every completed trace is listed exactly once. */
  predicate Listed(s: State) {
    InCompletionOrder(s) && ListedOnce(s) && AllListed(s)
  }

  predicate InCompletionOrder(s: State) {
    forall i: nat, k: nat | i < |s.traces| && k < |s.traces[i].children| :: ListedAt(s, i, k)
  }

  predicate ListedOnce(s: State) {
    forall i: nat, k: nat, j: nat, l: nat
      | i < |s.traces| && k < |s.traces[i].children| && j < |s.traces| && l < |s.traces[j].children| ::
        s.traces[i].children[k] == s.traces[j].children[l] ==> i == j && k == l
  }

  predicate AllListed(s: State) {
    forall c: nat | 0 < c < |s.traces| && Completed(s, c) :: IsListed(s, c)
  }

  predicate ListedAt(s: State, i: nat, k: nat)
    requires i < |s.traces| && k < |s.traces[i].children|
  {
    var c := s.traces[i].children[k];
    && i < c < |s.traces| && Completed(s, c)
    && (Completed(s, i) ==> s.traces[c].nodeCount < s.traces[i].nodeCount)
    && (forall l: nat | k < l < |s.traces[i].children| && s.traces[i].children[l] < |s.traces| ::
          s.traces[c].nodeCount < s.traces[s.traces[i].children[l]].nodeCount)
  }

  predicate IsListed(s: State, c: nat) {
    exists i: nat | i < |s.traces| :: c in s.traces[i].children
  }

  function CompletedExclusive(s: State, n: nat): int
    requires n <= |s.traces| == |s.exclusive|
  {
    if n == 0 then 0
    else CompletedExclusive(s, n - 1) + if Completed(s, n - 1) then s.exclusive[n - 1] else 0
  }

  predicate Inv(s: State, underWay: nat) {
    && WellFormed(s)
    && Counted(s) && Settled(s, underWay) && Detected(s) && Numbered(s) && Listed(s)
    && s.totalTime == CompletedExclusive(s, |s.traces|)
  }

  // ----- small steps -------------------------------------------------------------------

  /** An incomplete trace has incomplete ancestors, so the upward walk never touches a
      completed trace. */
  lemma {:induction false} WalkSkipsCompleted(s: State, i: nat, m: int, d: int, k: nat)
    requires WellFormed(s) && i < |s.traces| && k < |s.traces|
    requires forall j: nat | 0 < j < |s.traces| && s.traces[j].parent.Some? :: !Completed(s, s.traces[j].parent.value)
    requires !Completed(s, i) && Completed(s, k)
    ensures UpdateAsyncExclusiveTime(s, i, m, d)[k] == s.exclusive[k]
    decreases i
  {
    var t := s.traces[i];
    if t.parent.Some? && d - Delta(t, m, d) > 0 {
      var s' := s.(exclusive := s.exclusive[i := s.exclusive[i] - Delta(t, m, d)]);
      WalkSkipsCompleted(s', t.parent.value, NextStart(t, m), d - Delta(t, m, d), k);
    }
  }

  lemma ParentsIncomplete(s: State, j: nat)
    requires WellFormed(s) && Counted(s) && 0 < j < |s.traces| && s.traces[j].parent.Some?
    requires forall i: nat | 0 < i < |s.traces| && Completed(s, i) :: ReadyToComplete(s.traces[i])
    ensures !Completed(s, s.traces[j].parent.value)
    ensures HasOutstandingChildren(s.traces[s.traces[j].parent.value])
  {
    assert j in Outstanding(s, s.traces[j].parent.value);
  }

  lemma AddToBatchShape(s: State, p: nat, c: nat)
    requires WellFormed(s) && p < |s.traces| && c < |s.traces|
    ensures var r := AddToBatch(s, p, c); var parent := s.traces[p];
      && r == s.(traces := r.traces, exclusive := r.exclusive)
      && r.traces == s.traces[p := parent.(minChildStart := r.traces[p].minChildStart)]
      && (r.traces[p].minChildStart.Some? <==> parent.childCount != |parent.children|)
  {
    var m := EarliestStart(s.traces[p], s.traces[c]);
    var s' := SetMinChildStart(s, p, Some(m));
    assert s'.traces == s.traces[p := s.traces[p].(minChildStart := Some(m))];
  }

  lemma ProcessChildShape(s: State, p: nat, c: nat, isAsync: bool)
    requires WellFormed(s) && p < |s.traces| && c < |s.traces|
    ensures var r := ProcessChild(s, p, c, isAsync); var parent := s.traces[p];
      && r == s.(traces := r.traces, exclusive := r.exclusive)
      && r.traces == s.traces[p := parent.(children := parent.children + [c], minChildStart := r.traces[p].minChildStart)]
      && (r.traces[p].minChildStart.Some? <==>
            if isAsync then parent.childCount != |parent.children| + 1 else parent.minChildStart.Some?)
  {
    if isAsync {
      AddToBatchShape(AppendChild(s, p, c), p, c);
    }
  }

  /** Every field that CompleteOne writes, but for the exclusive times. */
  lemma CompleteOneShape(s: State, i: nat)
    requires WellFormed(s) && 0 < i < |s.traces| && s.traces[i].parent.Some?
    ensures var p := s.traces[i].parent.value; var r := CompleteOne(s, i); var parent := s.traces[p];
      var isAsync := parent.exited || parent.hasAsyncChildren;
      && r == s.(traces := r.traces, exclusive := r.exclusive,
                 nodeCount := s.nodeCount + 1, totalTime := s.totalTime + s.exclusive[i])
      && r.traces == s.traces[i := s.traces[i].(isAsync := isAsync, parent := None, nodeCount := s.nodeCount + 1)]
                             [p := parent.(children := parent.children + [i], minChildStart := r.traces[p].minChildStart)]
      && (r.traces[p].minChildStart.Some? <==>
            if isAsync then parent.childCount != |parent.children| + 1 else parent.minChildStart.Some?)
  {
    var p := s.traces[i].parent.value;
    var s1 := ProcessNode(Detach(s, i), i);
    ProcessChildShape(s1, p, i, s1.traces[i].isAsync);
  }

  /** Completing one trace leaves the exclusive time of completed ones, and its own, alone. */
  lemma CompletedFrozen(s: State, i: nat, k: nat)
    requires WellFormed(s) && Counted(s) && 0 < i < |s.traces| && s.traces[i].parent.Some?
    requires forall j: nat | 0 < j < |s.traces| && Completed(s, j) :: ReadyToComplete(s.traces[j])
    requires ReadyToComplete(s.traces[i])
    requires k < |s.traces| && (Completed(s, k) || k == i)
    ensures CompleteOne(s, i).exclusive[k] == s.exclusive[k]
  {
    var p := s.traces[i].parent.value;
    ParentsIncomplete(s, i);
    var s1 := ProcessNode(Detach(s, i), i);
    assert s1.traces[p] == s.traces[p] && s1.exclusive == s.exclusive;
    forall j: nat | 0 < j < |s.traces| && s1.traces[j].parent.Some?
      ensures !Completed(s1, s1.traces[j].parent.value)
    {
      ParentsIncomplete(s, j);
    }
    ProcessChildSkips(s1, p, i, s1.traces[i].isAsync, k);
  }

  lemma ProcessChildSkips(s: State, p: nat, c: nat, isAsync: bool, k: nat)
    requires WellFormed(s) && p < |s.traces| && c < |s.traces| && k < |s.traces|
    requires forall j: nat | 0 < j < |s.traces| && s.traces[j].parent.Some? :: !Completed(s, s.traces[j].parent.value)
    requires !Completed(s, p) && Completed(s, k)
    ensures ProcessChild(s, p, c, isAsync).exclusive[k] == s.exclusive[k]
  {
    if isAsync {
      AddToBatchSkips(AppendChild(s, p, c), p, c, k);
    }
  }

  lemma AddToBatchSkips(s: State, p: nat, c: nat, k: nat)
    requires WellFormed(s) && p < |s.traces| && c < |s.traces| && k < |s.traces|
    requires forall j: nat | 0 < j < |s.traces| && s.traces[j].parent.Some? :: !Completed(s, s.traces[j].parent.value)
    requires !Completed(s, p) && Completed(s, k)
    ensures AddToBatch(s, p, c).exclusive[k] == s.exclusive[k]
  {
    var m := EarliestStart(s.traces[p], s.traces[c]);
    var s1 := SetMinChildStart(s, p, Some(m));
    var d := s.traces[c].endTime - m;
    assert AddToBatch(s, p, c).exclusive
        == if HasOutstandingChildren(s.traces[p]) then s.exclusive else UpdateAsyncExclusiveTime(s1, p, m, d);
    WalkSkipsCompleted(s1, p, m, d, k);
  }

  // ----- completing one trace keeps the invariant --------------------------------------

  /** How the traces change when i completes into p, with the writes spelled out. */
  predicate CompletesTo(s: State, i: nat, p: nat, r: State) {
    && WellFormed(s) && WellFormed(r)
    && 0 < i < |s.traces| == |r.traces| && p < i && s.traces[i].parent == Some(p)
    && r.nodeCount == s.nodeCount + 1
    && r.traces[i].parent.None? && r.traces[i].nodeCount == s.nodeCount + 1
    && r.traces[p].parent == s.traces[p].parent && r.traces[p].nodeCount == s.traces[p].nodeCount
    && r.traces[p].children == s.traces[p].children + [i]
    && r.traces[i].children == s.traces[i].children
    && (forall k: nat | k < |s.traces| && k != i && k != p :: r.traces[k] == s.traces[k])
  }

  lemma CompleteOneCompletes(s: State, i: nat)
    requires WellFormed(s) && 0 < i < |s.traces| && s.traces[i].parent.Some?
    ensures CompletesTo(s, i, s.traces[i].parent.value, CompleteOne(s, i))
  {
    CompleteOneShape(s, i);
  }

  lemma OutstandingAfterCompletion(s: State, i: nat, p: nat, r: State, k: nat)
    requires CompletesTo(s, i, p, r) && k < |s.traces|
    ensures Outstanding(r, k) == if k == p then Outstanding(s, p) - {i} else Outstanding(s, k)
    ensures i in Outstanding(s, p)
  {
  }

  lemma CountedKept(s: State, i: nat)
    requires WellFormed(s) && 0 < i < |s.traces| && s.traces[i].parent.Some? && Counted(s)
    ensures Counted(CompleteOne(s, i))
  {
    var p, r := s.traces[i].parent.value, CompleteOne(s, i);
    CompleteOneShape(s, i);
    forall k: nat | k < |r.traces|
      ensures r.traces[k].childCount - |r.traces[k].children| == |Outstanding(r, k)|
    {
      OutstandingAfterCompletion(s, i, p, r, k);
    }
  }

  lemma SettledKept(s: State, i: nat)
    requires WellFormed(s) && 0 < i < |s.traces| && s.traces[i].parent.Some?
    requires Counted(s) && Settled(s, i) && ReadyToComplete(s.traces[i])
    ensures Settled(CompleteOne(s, i), s.traces[i].parent.value)
  {
    CompleteOneShape(s, i);
    ParentsIncomplete(s, i);
  }

  lemma DetectedKept(s: State, i: nat)
    requires WellFormed(s) && 0 < i < |s.traces| && s.traces[i].parent.Some? && Detected(s) && Counted(s)
    ensures Detected(CompleteOne(s, i))
  {
    CompleteOneShape(s, i);
    ParentCounts(s, i, s.traces[i].parent.value);
    FlagsAfterCompletion(s, i, s.traces[i].parent.value, CompleteOne(s, i));
  }

  lemma FlagsAfterCompletion(s: State, i: nat, p: nat, r: State)
    requires Detected(s) && p < i < |s.traces| == |r.traces|
    requires |s.traces[p].children| < s.traces[p].childCount
    requires var t, u := s.traces[p], r.traces[p];
      && u == t.(children := t.children + [i], minChildStart := u.minChildStart)
      && (u.minChildStart.Some? <==>
            if t.exited || t.hasAsyncChildren then t.childCount != |t.children| + 1 else t.minChildStart.Some?)
    requires var t, u := s.traces[i], r.traces[i];
      u == t.(isAsync := u.isAsync, parent := u.parent, nodeCount := u.nodeCount)
    requires forall k: nat | k < |s.traces| && k != i && k != p :: r.traces[k] == s.traces[k]
    ensures Detected(r)
  {
  }

  lemma ParentCounts(s: State, i: nat, p: nat)
    requires Counted(s) && i < |s.traces| && s.traces[i].parent == Some(p) && p < |s.traces|
    ensures |s.traces[p].children| < s.traces[p].childCount
  {
    assert i in Outstanding(s, p);
  }

  lemma NumberedKept(s: State, i: nat, p: nat, r: State)
    requires CompletesTo(s, i, p, r) && Numbered(s) && !Completed(s, p)
    ensures Numbered(r)
  {
    forall n: nat | 1 <= n <= r.nodeCount
      ensures HasNumber(r, n)
    {
      if n <= s.nodeCount {
        assert HasNumber(s, n);
        var k: nat :| k < |s.traces| && Completed(s, k) && s.traces[k].nodeCount == n;
        assert Completed(r, k) && r.traces[k].nodeCount == n;
      } else {
        assert Completed(r, i) && r.traces[i].nodeCount == n;
      }
    }
  }

  lemma NotListed(s: State, i: nat)
    requires InCompletionOrder(s) && i < |s.traces| && !Completed(s, i)
    ensures forall k: nat, l: nat | k < |s.traces| && l < |s.traces[k].children| :: s.traces[k].children[l] != i
  {
    forall k: nat, l: nat | k < |s.traces| && l < |s.traces[k].children|
      ensures s.traces[k].children[l] != i
    {
      assert ListedAt(s, k, l);
    }
  }

  lemma ListedAtKept(s: State, i: nat, p: nat, r: State, k: nat, l: nat)
    requires CompletesTo(s, i, p, r) && Numbered(s) && InCompletionOrder(s) && !Completed(s, p)
    requires k < |r.traces| && l < |r.traces[k].children|
    ensures ListedAt(r, k, l)
  {
    NotListed(s, i);
    NotListed(s, p);
    if k != p || l < |s.traces[p].children| {
      assert ListedAt(s, k, l);
    }
  }

  lemma ListedKept(s: State, i: nat, p: nat, r: State)
    requires CompletesTo(s, i, p, r) && Numbered(s) && Listed(s) && !Completed(s, p)
    ensures Listed(r)
  {
    forall k: nat, l: nat | k < |r.traces| && l < |r.traces[k].children|
      ensures ListedAt(r, k, l)
    {
      ListedAtKept(s, i, p, r, k, l);
    }
    ListedOnceKept(s, i, p, r);
    AllListedKept(s, i, p, r);
  }

  lemma ListedOnceKept(s: State, i: nat, p: nat, r: State)
    requires CompletesTo(s, i, p, r) && InCompletionOrder(s) && ListedOnce(s)
    ensures ListedOnce(r)
  {
    NotListed(s, i);
  }

  lemma AllListedKept(s: State, i: nat, p: nat, r: State)
    requires CompletesTo(s, i, p, r) && AllListed(s)
    ensures AllListed(r)
  {
    forall c: nat | 0 < c < |r.traces| && Completed(r, c)
      ensures IsListed(r, c)
    {
      if c == i {
        assert r.traces[p].children[|s.traces[p].children|] == i;
      } else {
        assert IsListed(s, c);
        var k: nat :| k < |s.traces| && c in s.traces[k].children;
        assert c in r.traces[k].children;
      }
    }
  }

  lemma {:induction false} TotalKept(s: State, i: nat, r: State, n: nat)
    requires WellFormed(s) && WellFormed(r) && |s.traces| == |r.traces| && 0 < i < |s.traces| && n <= |s.traces|
    requires !Completed(s, i) && Completed(r, i)
    requires forall k: nat | k < |s.traces| && k != i :: Completed(r, k) == Completed(s, k)
    requires forall k: nat | k < |s.traces| && (Completed(s, k) || k == i) :: r.exclusive[k] == s.exclusive[k]
    ensures CompletedExclusive(r, n) == CompletedExclusive(s, n) + if i < n then s.exclusive[i] else 0
  {
    if n > 0 {
      TotalKept(s, i, r, n - 1);
    }
  }

  lemma CompleteOneKeeps(s: State, i: nat)
    requires Inv(s, i) && 0 < i < |s.traces| && s.traces[i].parent.Some? && ReadyToComplete(s.traces[i])
    ensures Inv(CompleteOne(s, i), s.traces[i].parent.value)
  {
    var p, r := s.traces[i].parent.value, CompleteOne(s, i);
    CompleteOneCompletes(s, i);
    ParentsIncomplete(s, i);
    CountedKept(s, i);
    SettledKept(s, i);
    DetectedKept(s, i);
    NumberedKept(s, i, p, r);
    ListedKept(s, i, p, r);
    TotalAfterCompleteOne(s, i);
  }

  lemma TotalAfterCompleteOne(s: State, i: nat)
    requires WellFormed(s) && Counted(s) && Settled(s, i) && s.totalTime == CompletedExclusive(s, |s.traces|)
    requires 0 < i < |s.traces| && s.traces[i].parent.Some? && ReadyToComplete(s.traces[i])
    ensures CompleteOne(s, i).totalTime == CompletedExclusive(CompleteOne(s, i), |s.traces|)
  {
    var r := CompleteOne(s, i);
    CompleteOneShape(s, i);
    forall k: nat | k < |s.traces| && (Completed(s, k) || k == i)
      ensures r.exclusive[k] == s.exclusive[k]
    {
      CompletedFrozen(s, i, k);
    }
    TotalKept(s, i, r, |s.traces|);
  }

  /** The climb ends with no completion under way. */
  lemma {:induction false} CompleteTraceKeeps(s: State, i: nat)
    requires Inv(s, i) && i < |s.traces|
    ensures Inv(CompleteTrace(s, i), 0)
    decreases i
  {
    if i != 0 && ReadyToComplete(s.traces[i]) && s.traces[i].parent.Some? {
      CompleteOneKeeps(s, i);
      CompleteTraceKeeps(CompleteOne(s, i), s.traces[i].parent.value);
    }
  }

  /** The climb does not change what a trace was entered with and when it began and ended. */
  lemma {:induction false} CompleteTraceRecords(s: State, i: nat, k: nat)
    requires WellFormed(s) && i < |s.traces| && k < |s.traces|
    ensures var t, u := s.traces[k], CompleteTrace(s, i).traces[k];
      u.terminal == t.terminal && u.startTime == t.startTime && u.endTime == t.endTime && u.exited == t.exited
    ensures CompleteTrace(s, i).stopped == s.stopped && CompleteTrace(s, i).endTime == s.endTime
    decreases i
  {
    if i != 0 && ReadyToComplete(s.traces[i]) && s.traces[i].parent.Some? {
      CompleteOneShape(s, i);
      CompleteTraceRecords(CompleteOne(s, i), s.traces[i].parent.value, k);
    }
  }

  // ----- every event keeps it ----------------------------------------------------------

  lemma {:induction false} TotalSame(s: State, r: State, n: nat)
    requires |s.traces| == |s.exclusive| && |r.traces| == |r.exclusive| && n <= |s.traces| && n <= |r.traces|
    requires forall k: nat | k < n :: Completed(r, k) == Completed(s, k)
                                      && (Completed(s, k) ==> r.exclusive[k] == s.exclusive[k])
    ensures CompletedExclusive(r, n) == CompletedExclusive(s, n)
  {
    if n > 0 {
      TotalSame(s, r, n - 1);
    }
  }

  /** Nothing completes between s and r; at most fresh traces are added. */
  predicate SameLists(s: State, r: State) {
    && |s.traces| <= |r.traces| && r.nodeCount == s.nodeCount
    && (forall k: nat | k < |s.traces| ::
          && r.traces[k].parent == s.traces[k].parent && r.traces[k].nodeCount == s.traces[k].nodeCount
          && r.traces[k].children == s.traces[k].children)
    && (forall k: nat | |s.traces| <= k < |r.traces| ::
          r.traces[k].parent.Some? && r.traces[k].nodeCount == 0 && r.traces[k].children == [])
  }

  lemma NumberedSame(s: State, r: State)
    requires SameLists(s, r) && Numbered(s)
    ensures Numbered(r)
  {
    forall n: nat | 1 <= n <= r.nodeCount
      ensures HasNumber(r, n)
    {
      assert HasNumber(s, n);
      var k: nat :| k < |s.traces| && Completed(s, k) && s.traces[k].nodeCount == n;
      assert Completed(r, k) && r.traces[k].nodeCount == n;
    }
  }

  lemma ListedSame(s: State, r: State)
    requires SameLists(s, r) && Listed(s)
    ensures Listed(r)
  {
    forall k: nat, l: nat | k < |r.traces| && l < |r.traces[k].children|
      ensures ListedAt(r, k, l)
    {
      assert ListedAt(s, k, l);
      ListedAtSame(s, r, k, l);
    }
    assert AllListed(r) by {
      forall c: nat | 0 < c < |r.traces| && Completed(r, c)
        ensures IsListed(r, c)
      {
        assert IsListed(s, c);
        var k: nat :| k < |s.traces| && c in s.traces[k].children;
        assert c in r.traces[k].children;
      }
    }
  }

  lemma ListedAtSame(s: State, r: State, k: nat, l: nat)
    requires SameLists(s, r) && InCompletionOrder(s)
    requires k < |s.traces| && l < |s.traces[k].children| && ListedAt(s, k, l)
    ensures ListedAt(r, k, l)
  {
    forall j: nat | j < |s.traces[k].children|
      ensures s.traces[k].children[j] < |s.traces|
    {
      assert ListedAt(s, k, j);
    }
  }

  lemma CountedAfterEnter(s: State, p: nat, r: State)
    requires WellFormed(s) && Counted(s) && p < |s.traces| && |r.traces| == |s.traces| + 1
    requires r.traces[|s.traces|].parent == Some(p)
    requires r.traces[|s.traces|].childCount == 0 && r.traces[|s.traces|].children == []
    requires r.traces[..|s.traces|] == s.traces[p := IncrementChildCount(s.traces[p])]
    ensures Counted(r)
  {
    forall k: nat | k < |r.traces|
      ensures r.traces[k].childCount - |r.traces[k].children| == |Outstanding(r, k)|
    {
      CountedAtAfterEnter(s, p, r, k);
    }
  }

  lemma CountedAtAfterEnter(s: State, p: nat, r: State, k: nat)
    requires WellFormed(s) && Counted(s) && p < |s.traces| && k < |r.traces| == |s.traces| + 1
    requires r.traces[|s.traces|].parent == Some(p)
    requires r.traces[|s.traces|].childCount == 0 && r.traces[|s.traces|].children == []
    requires r.traces[..|s.traces|] == s.traces[p := IncrementChildCount(s.traces[p])]
    ensures r.traces[k].childCount - |r.traces[k].children| == |Outstanding(r, k)|
  {
    OutstandingAfterEnter(s, p, r, k);
    if k < |s.traces| {
      assert r.traces[k] == r.traces[..|s.traces|][k];
    }
  }

  lemma OutstandingAfterEnter(s: State, p: nat, r: State, k: nat)
    requires WellFormed(s) && p < |s.traces| && |r.traces| == |s.traces| + 1
    requires r.traces[|s.traces|].parent == Some(p)
    requires r.traces[..|s.traces|] == s.traces[p := IncrementChildCount(s.traces[p])]
    ensures Outstanding(r, k) == if k == p then Outstanding(s, p) + {|s.traces|} else Outstanding(s, k)
    ensures |s.traces| !in Outstanding(s, k)
    ensures k >= |s.traces| ==> Outstanding(r, k) == {}
  {
    forall j: nat | j < |s.traces|
      ensures r.traces[j].parent == s.traces[j].parent
    {
      assert r.traces[j] == r.traces[..|s.traces|][j];
    }
  }

  lemma FlagsAfterEnter(s: State, p: nat, r: State)
    requires WellFormed(s) && WellFormed(r) && Settled(s, 0) && Detected(s)
    requires p < |s.traces| && !s.traces[p].exited && |s.traces[p].children| <= s.traces[p].childCount
    requires |r.traces| == |s.traces| + 1
    requires r.traces[|s.traces|] == NewTrace(Some(p), r.traces[|s.traces|].terminal, r.traces[|s.traces|].startTime)
    requires forall k: nat | k < |s.traces| ::
               r.traces[k] == if k == p then IncrementChildCount(s.traces[p]) else s.traces[k]
    ensures Settled(r, 0) && Detected(r)
  {
  }

  lemma EnterKeeps(s: State, p: nat, terminal: bool, now: int)
    requires Inv(s, 0) && p < |s.traces|
    ensures Inv(Enter(s, p, terminal, now), 0)
  {
    if !Refused(s, p) {
      var r := Enter(s, p, terminal, now);
      assert r.traces[|s.traces|] == NewTrace(Some(p), terminal, now);
      assert r.traces[..|s.traces|] == s.traces[p := IncrementChildCount(s.traces[p])];
      CountedAfterEnter(s, p, r);
      assert |s.traces[p].children| <= s.traces[p].childCount;
      FlagsAfterEnter(s, p, r);
      ListsAndTotalSame(s, r);
    }
  }

  lemma ListsAndTotalSame(s: State, r: State)
    requires |s.exclusive| == |s.traces| && |r.exclusive| == |r.traces|
    requires SameLists(s, r) && Numbered(s) && Listed(s) && s.totalTime == CompletedExclusive(s, |s.traces|)
    requires r.totalTime == s.totalTime
    requires forall k: nat | k < |s.traces| && Completed(s, k) :: r.exclusive[k] == s.exclusive[k]
    ensures Numbered(r) && Listed(r) && r.totalTime == CompletedExclusive(r, |r.traces|)
  {
    NumberedSame(s, r);
    ListedSame(s, r);
    TotalSame(s, r, |s.traces|);
    NoneCompletedAbove(r, |s.traces|, |r.traces|);
  }

  lemma {:induction false} NoneCompletedAbove(r: State, lo: nat, hi: nat)
    requires lo <= hi <= |r.traces| == |r.exclusive|
    requires forall k: nat | lo <= k < hi :: !Completed(r, k)
    ensures CompletedExclusive(r, hi) == CompletedExclusive(r, lo)
    decreases hi
  {
    if lo < hi {
      NoneCompletedAbove(r, lo, hi - 1);
    }
  }

  lemma MarkedKeeps(s: State, i: nat, now: int)
    requires Inv(s, 0) && 0 < i < |s.traces| && !s.traces[i].exited
    ensures Inv(Marked(s, i, now), i)
  {
    var r := Marked(s, i, now);
    MarkedFlags(s, i, now);
    CountedSame(s, r);
    ListsAndTotalSame(s, r);
  }

  lemma MarkedFlags(s: State, i: nat, now: int)
    requires WellFormed(s) && Settled(s, 0) && Detected(s) && 0 < i < |s.traces| && !s.traces[i].exited
    ensures Settled(Marked(s, i, now), i) && Detected(Marked(s, i, now)) && !Completed(s, i)
  {
  }

  lemma CountedSame(s: State, r: State)
    requires |s.traces| == |r.traces| && Counted(s)
    requires forall k: nat | k < |s.traces| ::
      && r.traces[k].parent == s.traces[k].parent && r.traces[k].childCount == s.traces[k].childCount
      && r.traces[k].children == s.traces[k].children
    ensures Counted(r)
  {
    forall k: nat | k < |r.traces|
      ensures Outstanding(r, k) == Outstanding(s, k)
    {
    }
  }

  lemma ExitKeeps(s: State, i: nat, now: int)
    requires Inv(s, 0) && 0 < i < |s.traces| && !s.traces[i].exited
    ensures Inv(Exit(s, i, now), 0)
  {
    if s.traces[i].parent.Some? {
      MarkedKeeps(s, i, now);
      CompleteTraceKeeps(Marked(s, i, now), i);
    }
  }

  lemma StepKeeps(m: Machine, e: Event)
    requires Inv(m.s, 0) && Enabled(m, e)
    ensures Inv(Step(m, e).s, 0)
  {
    match e
    case EnterEvent(p, terminal, at) => EnterKeeps(m.s, p, terminal, at);
    case ExitEvent(i, at) => ExitKeeps(m.s, i, at);
    case StopEvent(at) =>
      var r := StopRecording(m.s, at);
      CountedSame(m.s, r);
      ListsAndTotalSame(m.s, r);
  }

  lemma StartHolds(start: int)
    ensures Inv(Start(start), 0)
  {
    var s := Start(start);
    assert Outstanding(s, 0) == {};
    assert s.traces[0].children == [];
  }

  /** Main result: every tree that any interleaving of events can reach satisfies the
      invariant, with no completion left under way. */
  lemma {:induction false} ReachableTreesKeepInvariant(start: int, es: seq<Event>)
    requires ValidRun(start, es)
    ensures Inv(After(start, es).s, 0)
    decreases |es|
  {
    if |es| == 0 {
      StartHolds(start);
    } else {
      ReachableTreesKeepInvariant(start, es[..|es| - 1]);
      StepKeeps(After(start, es[..|es| - 1]), es[|es| - 1]);
    }
  }

  // ----- completion happens once -------------------------------------------------------

  lemma {:induction false} CompleteTraceFreezes(s: State, i: nat, k: nat)
    requires Inv(s, i) && i < |s.traces| && k < |s.traces| && Completed(s, k)
    ensures var r := CompleteTrace(s, i);
      r.traces[k] == s.traces[k] && r.exclusive[k] == s.exclusive[k]
    decreases i
  {
    if i != 0 && ReadyToComplete(s.traces[i]) && s.traces[i].parent.Some? {
      var r := CompleteOne(s, i);
      ParentsIncomplete(s, i);
      CompleteOneShape(s, i);
      CompletedFrozen(s, i, k);
      CompleteOneKeeps(s, i);
      assert r.traces[k] == s.traces[k];
      CompleteTraceFreezes(r, s.traces[i].parent.value, k);
    }
  }

  lemma StepFreezes(m: Machine, e: Event, k: nat)
    requires Inv(m.s, 0) && Enabled(m, e) && k < |m.s.traces| && Completed(m.s, k)
    ensures var r := Step(m, e).s;
      k < |r.traces| && r.traces[k] == m.s.traces[k] && r.exclusive[k] == m.s.exclusive[k]
  {
    if e.ExitEvent? && m.s.traces[e.trace].parent.Some? {
      assert k != e.trace;
      MarkedKeeps(m.s, e.trace, e.at);
      CompleteTraceFreezes(Marked(m.s, e.trace, e.at), e.trace, k);
    } else if e.EnterEvent? {
      assert Completed(m.s, k) ==> ReadyToComplete(m.s.traces[k]);
    }
  }

  lemma {:induction false} PrefixValid(start: int, es: seq<Event>, n: nat)
    requires ValidRun(start, es) && n <= |es|
    ensures ValidRun(start, es[..n])
    decreases |es|
  {
    if n == |es| {
      assert es[..n] == es;
    } else {
      PrefixValid(start, es[..|es| - 1], n);
      assert es[..|es| - 1][..n] == es[..n];
    }
  }

  /** A trace completes once: whatever happens later, its record, its number and its
      exclusive time stay as they were when it completed. */
  lemma {:induction false} CompletedForGood(start: int, es: seq<Event>, n: nat, k: nat)
    requires ValidRun(start, es) && n <= |es| && ValidRun(start, es[..n])
    requires k < |After(start, es[..n]).s.traces| && Completed(After(start, es[..n]).s, k)
    ensures var before, after := After(start, es[..n]).s, After(start, es).s;
      && k < |after.traces|
      && after.traces[k] == before.traces[k] && after.exclusive[k] == before.exclusive[k]
    decreases |es|
  {
    if n == |es| {
      assert es[..n] == es;
    } else {
      var prefix := es[..|es| - 1];
      assert prefix[..n] == es[..n];
      CompletedForGood(start, prefix, n, k);
      ReachableTreesKeepInvariant(start, prefix);
      StepFreezes(After(start, prefix), es[|es| - 1], k);
    }
  }

  /** A child is charged synchronously only if it is the sole outstanding child of a
      running parent. */
  lemma SyncOnlyWhenAlone(s: State, i: nat)
    requires WellFormed(s) && Counted(s) && Detected(s) && 0 < i < |s.traces| && s.traces[i].parent.Some?
    requires !Detach(s, i).traces[i].isAsync
    ensures Outstanding(s, s.traces[i].parent.value) == {i}
    ensures !s.traces[s.traces[i].parent.value].exited
  {
    SoleMember(Outstanding(s, s.traces[i].parent.value), i);
  }

  lemma SoleMember(xs: set<nat>, x: nat)
    requires x in xs && |xs| <= 1
    ensures xs == {x}
  {
    assert |xs - {x}| == 0;
    assert xs - {x} == {};
  }
}
