/** Exclusive time of a trace whose children leave nothing outstanding when they exit: the
    incremental bookkeeping (negative accumulation, minimum child start, async verdict, clamp,
    upward walk) gives exactly the time during which the trace ran and no child of it was
    outstanding.  The Sentinel, number 0, is such a trace too; it has no exit, and its account
    is closed by the transaction. */
module TraceIdle {
  import opened Prelude
  import opened TraceModel
  import opened TraceInvariant

  /** Trace i runs, recording has not been stopped, and no child is outstanding. */
  predicate IdleNow(s: State, i: nat) {
    i < |s.traces| && !s.traces[i].exited && !s.stopped && Outstanding(s, i) == {}
  }

  /** The reference meaning: the time between events in which trace i was idle. */
  function IdleTime(start: int, es: seq<Event>, i: nat): int
    requires ValidRun(start, es)
  {
    if |es| == 0 then 0
    else
      var before := After(start, es[..|es| - 1]);
      IdleTime(start, es[..|es| - 1], i) + if IdleNow(before.s, i) then es[|es| - 1].at - before.clock else 0
  }

  /** The children of i exited with no outstanding children of their own; whatever went on
      below them was over by then. */
  predicate ReadyChildren(start: int, es: seq<Event>, i: nat)
    requires ValidRun(start, es)
  {
    |es| > 0 ==>
      && ReadyChildren(start, es[..|es| - 1], i)
      && ExitsReady(After(start, es[..|es| - 1]), es[|es| - 1], i)
  }

  predicate ExitsReady(m: Machine, e: Event, i: nat)
    requires Enabled(m, e)
  {
    e.ExitEvent? && m.s.traces[e.trace].parent == Some(i) ==> !HasOutstandingChildren(m.s.traces[e.trace])
  }

  /** When i began; the Sentinel with the transaction. */
  function Began(s: State, i: nat): int
    requires i < |s.traces|
  {
    if i == 0 then s.startTime else s.traces[i].startTime
  }

  /** The outstanding children of i all run. */
  predicate ChildrenRun(s: State, i: nat) {
    forall j: nat | j < |s.traces| && s.traces[j].parent == Some(i) :: !s.traces[j].exited
  }

  /** b is when the batch of children that is now outstanding began. */
  predicate BatchStart(s: State, i: nat, b: int)
    requires i < |s.traces|
  {
    var m := s.traces[i].minChildStart;
    && (m.Some? ==> b <= m.value)
    && (forall j | j in Outstanding(s, i) :: b <= s.traces[j].startTime)
    && (m == Some(b) || exists j :: j in Outstanding(s, i) && s.traces[j].startTime == b)
  }

  /** When i ended, or where the clock stands for it. */
  function EndOf(m: Machine, i: nat): int
    requires i < |m.s.traces|
  {
    if m.s.traces[i].exited then m.s.traces[i].endTime else EffectiveTime(m.s, m.clock)
  }

  /** Recorded times of i and of its outstanding children are ordered. */
  predicate Ordered(m: Machine, i: nat)
    requires i < |m.s.traces|
  {
    var t := m.s.traces[i];
    && (m.s.stopped ==> m.s.endTime <= m.clock)
    && Began(m.s, i) <= EndOf(m, i) <= EffectiveTime(m.s, m.clock)
    && (t.minChildStart.Some? ==> Began(m.s, i) <= t.minChildStart.value <= EndOf(m, i))
    && (forall j | j in Outstanding(m.s, i) :: Began(m.s, i) <= m.s.traces[j].startTime <= EndOf(m, i))
  }

  /** How the accumulated exclusive time of i stands to its idle time while a batch runs. */
  ghost predicate BatchAccounts(s: State, i: nat, idle: int)
    requires i < |s.traces| == |s.exclusive|
  {
    exists b :: BatchStart(s, i, b)
                && s.exclusive[i] + b - (if s.traces[i].exited then s.traces[i].endTime else Began(s, i)) == idle
  }

  ghost predicate Accounts(m: Machine, i: nat, idle: int)
    requires i < |m.s.traces| == |m.s.exclusive|
  {
    var t, ex := m.s.traces[i], m.s.exclusive[i];
    if Outstanding(m.s, i) == {} then
      if t.exited then ex == idle else ex + EffectiveTime(m.s, m.clock) - Began(m.s, i) == idle
    else BatchAccounts(m.s, i, idle)
  }

  ghost predicate IdleInv(m: Machine, i: nat, idle: int)
    requires i < |m.s.traces| == |m.s.exclusive|
  {
    0 <= idle && ChildrenRun(m.s, i) && Ordered(m, i) && Accounts(m, i, idle)
  }

  /** What is added to the idle time of i by the time at. */
  function More(m: Machine, i: nat, at: int): int {
    if IdleNow(m.s, i) then at - m.clock else 0
  }

  // ----- what does not concern trace i -------------------------------------------------

  /** Its outstanding children are the same, began at the same times and still run. */
  predicate SameChildren(s: State, r: State, i: nat) {
    && Outstanding(r, i) == Outstanding(s, i)
    && forall j | j in Outstanding(s, i) ::
         j < |r.traces| && r.traces[j].startTime == s.traces[j].startTime && r.traces[j].exited == s.traces[j].exited
  }

  /** Neither its record, nor its exclusive time, nor its outstanding children change. */
  predicate Spared(s: State, r: State, i: nat) {
    && i < |s.traces| == |s.exclusive| && i < |r.traces| == |r.exclusive|
    && r.traces[i] == s.traces[i] && r.exclusive[i] == s.exclusive[i] && r.startTime == s.startTime
    && SameChildren(s, r, i)
  }

  lemma SparedRuns(s: State, r: State, i: nat)
    requires Spared(s, r, i) && ChildrenRun(s, i)
    ensures ChildrenRun(r, i)
  {
    forall j: nat | j < |r.traces| && r.traces[j].parent == Some(i)
      ensures !r.traces[j].exited
    {
      assert j in Outstanding(r, i);
    }
  }

  /** The walk stops at a running child of i at the latest. */
  lemma {:induction false} WalkMisses(s: State, k: nat, m: int, d: int, i: nat)
    requires WellFormed(s) && k < |s.traces| && i < |s.traces| && ChildrenRun(s, i) && k != i
    ensures UpdateAsyncExclusiveTime(s, k, m, d)[i] == s.exclusive[i]
    decreases k
  {
    var t := s.traces[k];
    if t.parent.Some? && d - Delta(t, m, d) > 0 {
      var s' := s.(exclusive := s.exclusive[k := s.exclusive[k] - Delta(t, m, d)]);
      WalkMisses(s', t.parent.value, NextStart(t, m), d - Delta(t, m, d), i);
    }
  }

  lemma ProcessChildMisses(s: State, p: nat, c: nat, isAsync: bool, i: nat)
    requires WellFormed(s) && p < |s.traces| && c < |s.traces| && i < |s.traces| && ChildrenRun(s, i) && p != i
    ensures ProcessChild(s, p, c, isAsync).exclusive[i] == s.exclusive[i]
  {
    if isAsync {
      var s1 := AppendChild(s, p, c);
      var m := EarliestStart(s1.traces[p], s1.traces[c]);
      WalkMisses(SetMinChildStart(s1, p, Some(m)), p, m, s1.traces[c].endTime - m, i);
    }
  }

  lemma CompleteOneMissesExclusive(s: State, k: nat, i: nat)
    requires WellFormed(s) && 0 < k < |s.traces| && i < |s.traces| && ChildrenRun(s, i) && s.traces[k].parent.Some?
    requires s.traces[k].parent != Some(i)
    ensures CompleteOne(s, k).exclusive[i] == s.exclusive[i]
  {
    var s1 := ProcessNode(Detach(s, k), k);
    assert s1.exclusive == s.exclusive;
    ProcessChildMisses(s1, s.traces[k].parent.value, k, s1.traces[k].isAsync, i);
  }

  /** How the traces change when k completes into p. */
  predicate Completes(s: State, k: nat, p: nat, r: State) {
    && k < |s.traces| == |r.traces| && p < k && s.traces[k].parent == Some(p)
    && r.traces[k].parent.None?
    && r.traces[p] == s.traces[p].(children := r.traces[p].children, minChildStart := r.traces[p].minChildStart)
    && (forall j: nat | j < |s.traces| && j != k && j != p :: r.traces[j] == s.traces[j])
  }

  lemma CompleteOneWrites(s: State, k: nat)
    requires WellFormed(s) && 0 < k < |s.traces| && s.traces[k].parent.Some?
    ensures var r := CompleteOne(s, k);
      && Completes(s, k, s.traces[k].parent.value, r) && |r.exclusive| == |s.exclusive|
      && r.startTime == s.startTime && r.stopped == s.stopped && r.endTime == s.endTime
  {
    CompleteOneShape(s, k);
  }

  lemma CompletesSpares(s: State, k: nat, p: nat, r: State, i: nat)
    requires Completes(s, k, p, r) && i < |s.traces| && i != k && i != p
    ensures r.traces[i] == s.traces[i] && SameChildren(s, r, i)
  {
  }

  /** A trace that is neither i nor a child of i completes without touching i. */
  lemma CompleteOneMisses(s: State, k: nat, i: nat)
    requires WellFormed(s) && 0 < k < |s.traces| && i < |s.traces| && ChildrenRun(s, i) && s.traces[k].parent.Some?
    requires k != i && s.traces[k].parent != Some(i)
    ensures var r := CompleteOne(s, k);
      Spared(s, r, i) && r.stopped == s.stopped && r.endTime == s.endTime
  {
    CompleteOneMissesExclusive(s, k, i);
    CompleteOneWrites(s, k);
    CompletesSpares(s, k, s.traces[k].parent.value, CompleteOne(s, k), i);
  }

  lemma SparedTwice(s: State, r: State, t: State, i: nat)
    requires Spared(s, r, i) && Spared(r, t, i)
    ensures Spared(s, t, i)
  {
  }

  /** Nor does a completion that climbs: it ends at a running child of i at the latest. */
  lemma {:induction false} CompleteTraceMisses(s: State, k: nat, i: nat)
    requires WellFormed(s) && k < |s.traces| && i < |s.traces| && ChildrenRun(s, i) && k != i
    ensures var r := CompleteTrace(s, k);
      Spared(s, r, i) && r.stopped == s.stopped && r.endTime == s.endTime
    decreases k
  {
    if k != 0 && ReadyToComplete(s.traces[k]) && s.traces[k].parent.Some? {
      var r := CompleteOne(s, k);
      CompleteOneMisses(s, k, i);
      SparedRuns(s, r, i);
      CompleteTraceMisses(r, s.traces[k].parent.value, i);
      SparedTwice(s, r, CompleteTrace(s, k), i);
    }
  }

  // ----- i itself completes ------------------------------------------------------------

  /** The record of i after its completion; its times stay. */
  predicate Kept(s: State, r: State, i: nat) {
    && i < |s.traces| == |s.exclusive| && i < |r.traces| == |r.exclusive|
    && r.exclusive[i] == s.exclusive[i] && r.startTime == s.startTime
    && r.traces[i].exited == s.traces[i].exited && r.traces[i].startTime == s.traces[i].startTime
    && r.traces[i].endTime == s.traces[i].endTime
    && r.stopped == s.stopped && r.endTime == s.endTime
  }

  lemma NobodyIsChild(s: State, i: nat)
    requires Outstanding(s, i) == {}
    ensures ChildrenRun(s, i)
  {
    assert forall j: nat | j < |s.traces| && s.traces[j].parent == Some(i) :: j in Outstanding(s, i);
  }

  lemma NoChildrenLeft(s: State, i: nat)
    requires Counted(s) && i < |s.traces| && ReadyToComplete(s.traces[i])
    ensures Outstanding(s, i) == {} && ChildrenRun(s, i)
  {
    assert |Outstanding(s, i)| == 0;
    NobodyIsChild(s, i);
  }

  lemma SelfCompletesOne(s: State, i: nat)
    requires Inv(s, i) && 0 < i < |s.traces| && ReadyToComplete(s.traces[i]) && s.traces[i].parent.Some?
    ensures var r := CompleteOne(s, i);
      && Kept(s, r, i) && Outstanding(r, i) == {} && r.traces[i].minChildStart.None? && ChildrenRun(r, i)
  {
    CompletedFrozen(s, i, i);
    CompleteOneShape(s, i);
    NoChildrenLeft(s, i);
    assert s.traces[i].minChildStart.None?;
    var p := s.traces[i].parent.value;
    OutstandingAfterCompletion(s, i, p, CompleteOne(s, i), i) by { CompleteOneCompletes(s, i); }
    NobodyIsChild(CompleteOne(s, i), i);
  }

  /** When i itself is asked to complete, its exclusive time and exit times stay. */
  lemma CompleteSelf(s: State, i: nat)
    requires Inv(s, i) && 0 < i < |s.traces| && ReadyToComplete(s.traces[i]) && s.traces[i].parent.Some?
    ensures var r := CompleteTrace(s, i);
      Kept(s, r, i) && Outstanding(r, i) == {} && r.traces[i].minChildStart.None? && ChildrenRun(r, i)
  {
    var r, p := CompleteOne(s, i), s.traces[i].parent.value;
    SelfCompletesOne(s, i);
    CompleteTraceMisses(r, p, i);
    SparedRuns(r, CompleteTrace(s, i), i);
  }

  lemma CompletedAccounts(m: Machine, r: State, i: nat, idle: int)
    requires i < |m.s.traces| == |m.s.exclusive| && IdleInv(m, i, idle)
    requires Outstanding(m.s, i) == {} && m.s.traces[i].exited
    requires Kept(m.s, r, i) && Outstanding(r, i) == {} && r.traces[i].minChildStart.None? && ChildrenRun(r, i)
    ensures IdleInv(Machine(r, m.clock), i, idle)
  {
  }

  /** Asking i to complete keeps its account. */
  lemma SelfAccounts(m: Machine, r: State, i: nat, idle: int)
    requires Inv(m.s, i) && i < |m.s.traces| && IdleInv(m, i, idle) && r == CompleteTrace(m.s, i)
    ensures i < |r.traces| == |r.exclusive| && IdleInv(Machine(r, m.clock), i, idle)
  {
    if i != 0 && ReadyToComplete(m.s.traces[i]) && m.s.traces[i].parent.Some? {
      NoChildrenLeft(m.s, i);
      CompleteSelf(m.s, i);
      CompletedAccounts(m, r, i, idle);
    }
  }

  // ----- time passes -------------------------------------------------------------------

  lemma SparedBatch(s: State, r: State, i: nat, idle: int)
    requires Spared(s, r, i) && BatchAccounts(s, i, idle)
    ensures BatchAccounts(r, i, idle)
  {
    var b :| BatchStart(s, i, b)
             && s.exclusive[i] + b - (if s.traces[i].exited then s.traces[i].endTime else Began(s, i)) == idle;
    SparedBatchStart(s, r, i, b);
  }

  lemma SparedBatchStart(s: State, r: State, i: nat, b: int)
    requires Spared(s, r, i) && BatchStart(s, i, b)
    ensures BatchStart(r, i, b)
  {
    if s.traces[i].minChildStart != Some(b) {
      var j :| j in Outstanding(s, i) && s.traces[j].startTime == b;
      assert j in Outstanding(r, i) && r.traces[j].startTime == b;
    }
  }

  lemma OrderedLater(m: Machine, r: State, at: int, i: nat)
    requires Spared(m.s, r, i) && Ordered(m, i) && m.clock <= at
    requires if r.stopped == m.s.stopped then r.endTime == m.s.endTime else r.stopped && r.endTime == at
    ensures Ordered(Machine(r, at), i)
  {
  }

  /** Time passes and nothing else that concerns i changes. */
  lemma Passes(m: Machine, r: State, at: int, i: nat, idle: int)
    requires i < |m.s.traces| == |m.s.exclusive| && IdleInv(m, i, idle) && m.clock <= at
    requires Spared(m.s, r, i)
    requires if r.stopped == m.s.stopped then r.endTime == m.s.endTime else r.stopped && r.endTime == at
    ensures IdleInv(Machine(r, at), i, idle + More(m, i, at))
  {
    SparedRuns(m.s, r, i);
    OrderedLater(m, r, at, i);
    if Outstanding(m.s, i) != {} {
      SparedBatch(m.s, r, i, idle);
    }
  }

  // ----- a child of i starts -----------------------------------------------------------

  /** What an enter under i does to i. */
  predicate Begins(s: State, r: State, i: nat, at: int) {
    var n := |s.traces|;
    && i < n == |s.exclusive| && |r.traces| == |r.exclusive| == n + 1
    && Outstanding(r, i) == Outstanding(s, i) + {n}
    && r.traces[n].startTime == at && !r.traces[n].exited
    && r.traces[i] == IncrementChildCount(s.traces[i]) && r.exclusive[i] == s.exclusive[i]
    && r.startTime == s.startTime && r.stopped == s.stopped && r.endTime == s.endTime
    && (forall j | j in Outstanding(s, i) :: j < n && r.traces[j] == s.traces[j])
  }

  lemma EnterBegins(s: State, i: nat, terminal: bool, at: int)
    requires WellFormed(s) && i < |s.traces| && !Refused(s, i)
    ensures Begins(s, Enter(s, i, terminal, at), i, at)
  {
    var n, r := |s.traces|, Enter(s, i, terminal, at);
    assert r.traces[n] == NewTrace(Some(i), terminal, at);
    assert r.traces[..n] == s.traces[i := IncrementChildCount(s.traces[i])];
    OutstandingAfterEnter(s, i, r, i);
    forall j | j in Outstanding(s, i)
      ensures j < n && r.traces[j] == s.traces[j]
    {
      assert r.traces[j] == r.traces[..n][j];
    }
  }

  lemma BeginsRuns(s: State, r: State, i: nat, at: int)
    requires Begins(s, r, i, at) && ChildrenRun(s, i)
    ensures ChildrenRun(r, i)
  {
    forall j: nat | j < |r.traces| && r.traces[j].parent == Some(i)
      ensures !r.traces[j].exited
    {
      assert j in Outstanding(r, i);
    }
  }

  lemma BeginsBatch(s: State, r: State, i: nat, at: int, b: int)
    requires Begins(s, r, i, at) && BatchStart(s, i, b) && b <= at
    ensures BatchStart(r, i, b)
  {
    if s.traces[i].minChildStart != Some(b) {
      var j :| j in Outstanding(s, i) && s.traces[j].startTime == b;
      assert j in Outstanding(r, i) && r.traces[j].startTime == b;
    }
  }

  lemma FirstOfBatch(s: State, r: State, i: nat, at: int)
    requires Begins(s, r, i, at) && Outstanding(s, i) == {} && s.traces[i].minChildStart.None?
    ensures BatchStart(r, i, at)
  {
    assert |s.traces| in Outstanding(r, i);
  }

  lemma BatchIsEarlier(m: Machine, i: nat, b: int)
    requires i < |m.s.traces| && Ordered(m, i) && BatchStart(m.s, i, b)
    ensures Began(m.s, i) <= b <= EndOf(m, i)
  {
  }

  /** A child of i starts. */
  lemma ChildStarts(m: Machine, r: State, at: int, i: nat, idle: int)
    requires i < |m.s.traces| == |m.s.exclusive| && IdleInv(m, i, idle) && m.clock <= at
    requires Begins(m.s, r, i, at) && !m.s.traces[i].exited && !m.s.stopped
    requires Outstanding(m.s, i) == {} ==> m.s.traces[i].minChildStart.None?
    ensures IdleInv(Machine(r, at), i, idle + More(m, i, at))
  {
    BeginsRuns(m.s, r, i, at);
    assert |m.s.traces| in Outstanding(r, i);
    if Outstanding(m.s, i) == {} {
      FirstOfBatch(m.s, r, i, at);
    } else {
      var b :| BatchStart(m.s, i, b) && m.s.exclusive[i] + b - Began(m.s, i) == idle;
      BatchIsEarlier(m, i, b);
      BeginsBatch(m.s, r, i, at, b);
    }
  }

  // ----- i exits -----------------------------------------------------------------------

  lemma MarkedSelf(s: State, i: nat, at: int)
    requires WellFormed(s) && 0 < i < |s.traces|
    ensures var r := Marked(s, i, at);
      && SameChildren(s, r, i) && r.startTime == s.startTime && r.stopped == s.stopped && r.endTime == s.endTime
      && r.traces[i] == MarkExited(s.traces[i], EffectiveTime(s, at))
      && r.exclusive[i] == ExclusiveAtExit(s.exclusive[i], r.traces[i].duration)
  {
    assert i !in Outstanding(s, i);
  }

  /** i itself exits: the clamp changes nothing. */
  lemma SelfMarked(m: Machine, r: State, at: int, i: nat, idle: int)
    requires 0 < i < |m.s.traces| == |m.s.exclusive| && IdleInv(m, i, idle) && m.clock <= at
    requires !m.s.traces[i].exited && i < |r.traces| == |r.exclusive|
    requires SameChildren(m.s, r, i)
    requires r.startTime == m.s.startTime && r.stopped == m.s.stopped && r.endTime == m.s.endTime
    requires r.traces[i] == MarkExited(m.s.traces[i], EffectiveTime(m.s, at))
    requires r.exclusive[i] == ExclusiveAtExit(m.s.exclusive[i], r.traces[i].duration)
    ensures Ordered(Machine(r, at), i) && Accounts(Machine(r, at), i, idle + More(m, i, at))
  {
    if Outstanding(m.s, i) != {} {
      var b :| BatchStart(m.s, i, b) && m.s.exclusive[i] + b - Began(m.s, i) == idle;
      BatchIsEarlier(m, i, b);
      MarkedBatch(m.s, r, i, b);
      assert r.exclusive[i] + b - r.traces[i].endTime == idle;
    }
  }

  lemma MarkedBatch(s: State, r: State, i: nat, b: int)
    requires i < |s.traces| && i < |r.traces| && SameChildren(s, r, i) && BatchStart(s, i, b)
    requires r.traces[i].minChildStart == s.traces[i].minChildStart
    ensures BatchStart(r, i, b)
  {
    if s.traces[i].minChildStart != Some(b) {
      var j :| j in Outstanding(s, i) && s.traces[j].startTime == b;
      assert j in Outstanding(r, i) && r.traces[j].startTime == b;
    }
  }

  lemma MarkedRuns(s: State, r: State, i: nat)
    requires SameChildren(s, r, i) && ChildrenRun(s, i)
    ensures ChildrenRun(r, i)
  {
    forall j: nat | j < |r.traces| && r.traces[j].parent == Some(i)
      ensures !r.traces[j].exited
    {
      assert j in Outstanding(r, i);
    }
  }

  lemma SelfExits(m: Machine, r: State, at: int, i: nat, idle: int)
    requires Inv(m.s, 0) && 0 < i < |m.s.traces| && IdleInv(m, i, idle) && m.clock <= at
    requires !m.s.traces[i].exited && m.s.traces[i].parent.Some? && r == Exit(m.s, i, at)
    ensures i < |r.traces| == |r.exclusive| && IdleInv(Machine(r, at), i, idle + More(m, i, at))
  {
    var r1 := Marked(m.s, i, at);
    MarkedKeeps(m.s, i, at);
    MarkedSelf(m.s, i, at);
    MarkedRuns(m.s, r1, i);
    SelfMarked(m, r1, at, i, idle);
    SelfAccounts(Machine(r1, at), r, i, idle + More(m, i, at));
  }

  // ----- a child of i exits ------------------------------------------------------------

  /** What the completion of child c writes into the bookkeeping of its parent p. */
  predicate Charges(t: Trace, ex: int, c: Trace, m': Option<int>, ex': int) {
    var isAsync := t.exited || t.hasAsyncChildren;
    var m := EarliestStart(t, c);
    if !isAsync then ex' == ex - c.duration && m' == t.minChildStart
    else if t.childCount == |t.children| + 1 then ex' == ex - Delta(t, m, c.endTime - m) && m' == None
    else ex' == ex && m' == Some(m)
  }

  lemma CompleteOneCharges(s: State, c: nat)
    requires WellFormed(s) && 0 < c < |s.traces| && s.traces[c].parent.Some?
    ensures var p := s.traces[c].parent.value; var r := CompleteOne(s, c);
      Charges(s.traces[p], s.exclusive[p], s.traces[c], r.traces[p].minChildStart, r.exclusive[p])
  {
    var p := s.traces[c].parent.value;
    var s1 := ProcessNode(Detach(s, c), c);
    assert s1.traces[p] == s.traces[p] && s1.exclusive == s.exclusive;
    ProcessChildCharges(s1, p, c, s1.traces[c].isAsync);
  }

  lemma ProcessChildCharges(s: State, p: nat, c: nat, isAsync: bool)
    requires WellFormed(s) && p < c < |s.traces|
    requires isAsync == (s.traces[p].exited || s.traces[p].hasAsyncChildren)
    ensures var r := ProcessChild(s, p, c, isAsync);
      Charges(s.traces[p], s.exclusive[p], s.traces[c], r.traces[p].minChildStart, r.exclusive[p])
  {
  }

  /** What the exit and completion of child j, which ends as `end`, do to i. */
  predicate Ends(s: State, r: State, i: nat, j: nat, end: Trace) {
    && i < |s.traces| == |s.exclusive| && i < |r.traces| == |r.exclusive| && j in Outstanding(s, i)
    && Outstanding(r, i) == Outstanding(s, i) - {j}
    && (forall k | k in Outstanding(r, i) :: k < |r.traces| && r.traces[k] == s.traces[k])
    && r.traces[i] == s.traces[i].(children := r.traces[i].children, minChildStart := r.traces[i].minChildStart)
    && Charges(s.traces[i], s.exclusive[i], end, r.traces[i].minChildStart, r.exclusive[i])
    && r.startTime == s.startTime && r.stopped == s.stopped && r.endTime == s.endTime
  }

  /** The bookkeeping facts about i that the invariant of the tree provides. */
  predicate Kempt(s: State, i: nat)
    requires i < |s.traces|
  {
    var t := s.traces[i];
    && t.childCount - |t.children| == |Outstanding(s, i)|
    && (!t.hasAsyncChildren ==> t.childCount - |t.children| <= 1)
    && (t.minChildStart.Some? ==> t.exited || t.hasAsyncChildren)
  }

  lemma EndsRuns(s: State, r: State, i: nat, j: nat, end: Trace)
    requires Ends(s, r, i, j, end) && ChildrenRun(s, i)
    ensures ChildrenRun(r, i)
  {
    forall k: nat | k < |r.traces| && r.traces[k].parent == Some(i)
      ensures !r.traces[k].exited
    {
      assert k in Outstanding(r, i) && k in Outstanding(s, i);
    }
  }

  /** The last child of a batch. */
  lemma LastEnds(m: Machine, r: State, at: int, i: nat, j: nat, end: Trace, idle: int)
    requires i < |m.s.traces| == |m.s.exclusive| && Ordered(m, i) && BatchAccounts(m.s, i, idle) && m.clock <= at
    requires 0 <= idle && Kempt(m.s, i) && Ends(m.s, r, i, j, end) && Outstanding(m.s, i) == {j}
    requires j < |m.s.traces| && end == MarkExited(m.s.traces[j], EffectiveTime(m.s, at))
    ensures Ordered(Machine(r, at), i) && Accounts(Machine(r, at), i, idle)
  {
    var s, t := m.s, m.s.traces[i];
    var b :| BatchStart(s, i, b) && s.exclusive[i] + b - (if t.exited then t.endTime else Began(s, i)) == idle;
    BatchIsEarlier(m, i, b);
    assert b == EarliestStart(t, s.traces[j]);
    assert Outstanding(r, i) == {};
  }

  /** Another child of a batch. */
  lemma OneEnds(m: Machine, r: State, i: nat, j: nat, end: Trace, idle: int)
    requires i < |m.s.traces| == |m.s.exclusive| && BatchAccounts(m.s, i, idle)
    requires Kempt(m.s, i) && Ends(m.s, r, i, j, end) && |Outstanding(m.s, i)| > 1
    requires j < |m.s.traces| && end.startTime == m.s.traces[j].startTime
    ensures BatchAccounts(r, i, idle)
  {
    var s, t := m.s, m.s.traces[i];
    var b :| BatchStart(s, i, b) && s.exclusive[i] + b - (if t.exited then t.endTime else Began(s, i)) == idle;
    OneEndsBatch(s, r, i, j, end, b);
  }

  lemma OneEndsOrdered(m: Machine, r: State, at: int, i: nat, j: nat, end: Trace)
    requires i < |m.s.traces| == |m.s.exclusive| && Ordered(m, i) && m.clock <= at
    requires Kempt(m.s, i) && Ends(m.s, r, i, j, end) && |Outstanding(m.s, i)| > 1
    requires j < |m.s.traces| && end.startTime == m.s.traces[j].startTime
    ensures Ordered(Machine(r, at), i)
  {
  }

  lemma OneEndsBatch(s: State, r: State, i: nat, j: nat, end: Trace, b: int)
    requires Ends(s, r, i, j, end) && j < |s.traces| && BatchStart(s, i, b) && end.startTime == s.traces[j].startTime
    requires r.traces[i].minChildStart == Some(EarliestStart(s.traces[i], end))
    ensures BatchStart(r, i, b)
  {
    if r.traces[i].minChildStart != Some(b) {
      var k :| k in Outstanding(s, i) && s.traces[k].startTime == b;
      assert k != j;
      assert k in Outstanding(r, i) && r.traces[k].startTime == b;
    }
  }

  lemma RemainingChildren(xs: set<nat>, x: nat)
    requires x in xs
    ensures |xs| == 1 ==> xs == {x}
    ensures |xs| > 1 ==> xs - {x} != {}
  {
    if |xs| == 1 {
      SoleMember(xs, x);
    } else {
      assert |xs - {x}| == |xs| - 1;
    }
  }

  /** The accounts of i balance again once one of its outstanding children has completed. */
  lemma ChildCompletes(m: Machine, r: State, at: int, i: nat, j: nat, end: Trace, idle: int)
    requires i < |m.s.traces| == |m.s.exclusive| && IdleInv(m, i, idle) && m.clock <= at
    requires Kempt(m.s, i) && Ends(m.s, r, i, j, end)
    requires j < |m.s.traces| && end == MarkExited(m.s.traces[j], EffectiveTime(m.s, at))
    ensures IdleInv(Machine(r, at), i, idle)
  {
    EndsRuns(m.s, r, i, j, end);
    RemainingChildren(Outstanding(m.s, i), j);
    if |Outstanding(m.s, i)| == 1 {
      LastEnds(m, r, at, i, j, end, idle);
    } else {
      OneEndsOrdered(m, r, at, i, j, end);
      OneEnds(m, r, i, j, end, idle);
    }
  }

  lemma MarkedChild(s: State, i: nat, j: nat, at: int)
    requires WellFormed(s) && i < |s.traces| && j in Outstanding(s, i) && 0 < j < |s.traces|
    ensures var r := Marked(s, j, at);
      && j != i && r.exclusive[i] == s.exclusive[i] && r.traces[i] == s.traces[i]
      && r.traces[j] == MarkExited(s.traces[j], EffectiveTime(s, at)) && r.traces[j].parent == Some(i)
      && Outstanding(r, i) == Outstanding(s, i)
      && (forall k | k in Outstanding(s, i) && k != j :: r.traces[k] == s.traces[k])
      && r.startTime == s.startTime && r.stopped == s.stopped && r.endTime == s.endTime
  {
  }

  lemma ChildDetaches(s: State, i: nat, j: nat)
    requires WellFormed(s) && i < |s.traces| && j in Outstanding(s, i) && 0 < j < |s.traces|
    ensures Ends(s, CompleteOne(s, j), i, j, s.traces[j])
  {
    CompleteOneWrites(s, j);
    CompleteOneCharges(s, j);
    OutstandingAfterCompletion(s, j, i, CompleteOne(s, j), i) by { CompleteOneCompletes(s, j); }
  }

  lemma ChildEnds(s: State, i: nat, j: nat, at: int)
    requires WellFormed(s) && i < |s.traces| && j in Outstanding(s, i) && 0 < j < |s.traces|
    ensures Ends(s, CompleteOne(Marked(s, j, at), j), i, j, MarkExited(s.traces[j], EffectiveTime(s, at)))
  {
    MarkedChild(s, i, j, at);
    ChildDetaches(Marked(s, j, at), i, j);
  }

  lemma TreeIsKempt(s: State, i: nat)
    requires Counted(s) && Detected(s) && i < |s.traces|
    ensures Kempt(s, i)
  {
  }

  /** A child of i exits with nothing outstanding, so it completes at once. */
  lemma ChildExits(m: Machine, r: State, at: int, i: nat, j: nat, idle: int)
    requires Inv(m.s, 0) && i < |m.s.traces| && IdleInv(m, i, idle) && m.clock <= at
    requires j in Outstanding(m.s, i) && 0 < j < |m.s.traces| && !m.s.traces[j].exited
    requires !HasOutstandingChildren(m.s.traces[j]) && r == Exit(m.s, j, at)
    ensures i < |r.traces| == |r.exclusive| && IdleInv(Machine(r, at), i, idle)
  {
    var r1 := Marked(m.s, j, at);
    var r2 := CompleteOne(r1, j);
    MarkedKeeps(m.s, j, at);
    MarkedChild(m.s, i, j, at);
    CompleteOneKeeps(r1, j);
    ChildEnds(m.s, i, j, at);
    TreeIsKempt(m.s, i);
    ChildCompletes(m, r2, at, i, j, r1.traces[j], idle);
    SelfAccounts(Machine(r2, at), r, i, idle);
  }

  // ----- whole runs --------------------------------------------------------------------

  lemma MarkedMisses(s: State, j: nat, at: int, i: nat)
    requires WellFormed(s) && i < |s.traces| && 0 < j < |s.traces| && j != i && s.traces[j].parent != Some(i)
    ensures var r := Marked(s, j, at); Spared(s, r, i) && r.stopped == s.stopped && r.endTime == s.endTime
  {
  }

  lemma OtherExits(m: Machine, r: State, at: int, i: nat, j: nat, idle: int)
    requires WellFormed(m.s) && i < |m.s.traces| && IdleInv(m, i, idle) && m.clock <= at
    requires 0 < j < |m.s.traces| && j != i && m.s.traces[j].parent != Some(i) && r == Exit(m.s, j, at)
    ensures i < |r.traces| == |r.exclusive| && IdleInv(Machine(r, at), i, idle + More(m, i, at))
  {
    var s := m.s;
    if s.traces[j].parent.Some? {
      MarkedMisses(s, j, at, i);
      SparedRuns(s, Marked(s, j, at), i);
      CompleteTraceMisses(Marked(s, j, at), j, i);
      SparedTwice(s, Marked(s, j, at), r, i);
    }
    Passes(m, r, at, i, idle);
  }

  lemma OtherEnterSpares(s: State, p: nat, terminal: bool, at: int, i: nat)
    requires WellFormed(s) && i < |s.traces| && p < |s.traces| && p != i && !Refused(s, p)
    ensures Spared(s, Enter(s, p, terminal, at), i)
  {
    var n, r := |s.traces|, Enter(s, p, terminal, at);
    assert r.traces[n] == NewTrace(Some(p), terminal, at);
    assert r.traces[..n] == s.traces[p := IncrementChildCount(s.traces[p])];
    OutstandingAfterEnter(s, p, r, i);
    forall j: nat | j < n
      ensures r.traces[j].startTime == s.traces[j].startTime && r.traces[j].exited == s.traces[j].exited
    {
      assert r.traces[j] == r.traces[..n][j];
    }
  }

  lemma EnterAccounts(m: Machine, e: Event, r: State, i: nat, idle: int)
    requires Inv(m.s, 0) && i < |m.s.traces| && IdleInv(m, i, idle) && Enabled(m, e)
    requires e.EnterEvent? && r == Enter(m.s, e.parent, e.terminal, e.at)
    ensures i < |r.traces| == |r.exclusive| && IdleInv(Machine(r, e.at), i, idle + More(m, i, e.at))
  {
    var p, terminal, at := e.parent, e.terminal, e.at;
    if Refused(m.s, p) {
      Passes(m, r, at, i, idle);
    } else if p == i {
      EnterBegins(m.s, i, terminal, at);
      assert Outstanding(m.s, i) == {} ==> m.s.traces[i].minChildStart.None?;
      ChildStarts(m, r, at, i, idle);
    } else {
      OtherEnterSpares(m.s, p, terminal, at, i);
      Passes(m, r, at, i, idle);
    }
  }

  lemma NotIdleWithChildren(m: Machine, i: nat, j: nat, at: int)
    requires j in Outstanding(m.s, i)
    ensures More(m, i, at) == 0
  {
  }

  lemma ExitAccounts(m: Machine, e: Event, r: State, i: nat, idle: int)
    requires Inv(m.s, 0) && i < |m.s.traces| && IdleInv(m, i, idle) && Enabled(m, e) && ExitsReady(m, e, i)
    requires e.ExitEvent? && r == Exit(m.s, e.trace, e.at)
    ensures i < |r.traces| == |r.exclusive| && IdleInv(Machine(r, e.at), i, idle + More(m, i, e.at))
  {
    var j, at := e.trace, e.at;
    if j == i {
      assert m.s.traces[i].parent.Some?;
      SelfExits(m, r, at, i, idle);
    } else if m.s.traces[j].parent == Some(i) {
      assert j in Outstanding(m.s, i);
      NotIdleWithChildren(m, i, j, at);
      ChildExits(m, r, at, i, j, idle);
    } else {
      OtherExits(m, r, at, i, j, idle);
    }
  }

  lemma StopAccounts(m: Machine, e: Event, r: State, i: nat, idle: int)
    requires i < |m.s.traces| == |m.s.exclusive| && IdleInv(m, i, idle) && Enabled(m, e)
    requires e.StopEvent? && r == StopRecording(m.s, e.at)
    ensures i < |r.traces| == |r.exclusive| && IdleInv(Machine(r, e.at), i, idle + More(m, i, e.at))
  {
    assert Outstanding(r, i) == Outstanding(m.s, i);
    Passes(m, r, e.at, i, idle);
  }

  /** When i is activated its account opens with nothing. */
  lemma Opens(m: Machine, e: Event, r: State)
    requires Inv(m.s, 0) && Enabled(m, e) && e.EnterEvent? && !Refused(m.s, e.parent)
    requires r == Enter(m.s, e.parent, e.terminal, e.at)
    ensures |m.s.traces| < |r.traces| == |r.exclusive| && IdleInv(Machine(r, e.at), |m.s.traces|, 0)
  {
    var s, n, p, terminal, at := m.s, |m.s.traces|, e.parent, e.terminal, e.at;
    assert r.traces[n] == NewTrace(Some(p), terminal, at);
    assert r.traces[..n] == s.traces[p := IncrementChildCount(s.traces[p])];
    OutstandingAfterEnter(s, p, r, n);
    NobodyIsChild(r, n);
  }

  /** The Sentinel's opens with the transaction. */
  lemma SentinelOpens(start: int)
    ensures IdleInv(Machine(Start(start), start), 0, 0)
  {
    assert Outstanding(Start(start), 0) == {};
    NobodyIsChild(Start(start), 0);
  }

  lemma StepGrows(m: Machine, e: Event)
    requires WellFormed(m.s) && Enabled(m, e)
    ensures |m.s.traces| <= |Step(m, e).s.traces|
    ensures |m.s.traces| < |Step(m, e).s.traces| ==>
              && e.EnterEvent? && !Refused(m.s, e.parent)
              && |Step(m, e).s.traces| == |m.s.traces| + 1
  {
  }

  lemma {:induction false} NoIdleBefore(start: int, es: seq<Event>, i: nat)
    requires ValidRun(start, es) && |After(start, es).s.traces| <= i
    ensures IdleTime(start, es, i) == 0
    decreases |es|
  {
    if |es| > 0 {
      StepGrows(After(start, es[..|es| - 1]), es[|es| - 1]);
      NoIdleBefore(start, es[..|es| - 1], i);
    }
  }

  lemma StepAccounts(m: Machine, e: Event, i: nat, idle: int)
    requires Inv(m.s, 0) && i < |m.s.traces| && IdleInv(m, i, idle)
    requires Enabled(m, e) && ExitsReady(m, e, i)
    ensures i < |Step(m, e).s.traces| == |Step(m, e).s.exclusive|
    ensures IdleInv(Step(m, e), i, idle + More(m, i, e.at))
  {
    StepGrows(m, e);
    match e
    case EnterEvent(_, _, _) => EnterAccounts(m, e, Step(m, e).s, i, idle);
    case ExitEvent(_, _) => ExitAccounts(m, e, Step(m, e).s, i, idle);
    case StopEvent(_) => StopAccounts(m, e, Step(m, e).s, i, idle);
  }

  lemma {:induction false} RunAccounts(start: int, es: seq<Event>, i: nat)
    requires ValidRun(start, es) && ReadyChildren(start, es, i)
    requires i < |After(start, es).s.traces|
    ensures IdleInv(After(start, es), i, IdleTime(start, es, i))
    decreases |es|
  {
    if |es| == 0 {
      SentinelOpens(start);
    } else {
      var before, e := After(start, es[..|es| - 1]), es[|es| - 1];
      ReachableTreesKeepInvariant(start, es[..|es| - 1]);
      if i < |before.s.traces| {
        RunAccounts(start, es[..|es| - 1], i);
        StepAccounts(before, e, i, IdleTime(start, es[..|es| - 1], i));
      } else {
        StepGrows(before, e);
        NoIdleBefore(start, es[..|es| - 1], i);
        Opens(before, e, Step(before, e).s);
      }
    }
  }

  // ----- results -----------------------------------------------------------------------

  /** Main result: over every interleaving of child starts, child finishes, the trace's own
      exit, any other activity in the tree and stop_recording, a finished trace whose children
      exited with nothing outstanding has as exclusive time exactly its idle time; what the
      children take is at most its duration, so the clamp never acts. */
  lemma ExclusiveIsIdleTime(start: int, es: seq<Event>, i: nat)
    requires ValidRun(start, es) && ReadyChildren(start, es, i)
    requires 0 < i < |After(start, es).s.traces|
    requires ReadyToComplete(After(start, es).s.traces[i])
    ensures var s := After(start, es).s;
      && s.exclusive[i] == IdleTime(start, es, i)
      && 0 <= s.exclusive[i]
  {
    RunAccounts(start, es, i);
    ReachableTreesKeepInvariant(start, es);
    NoChildrenLeft(After(start, es).s, i);
  }

  lemma {:induction false} SentinelRuns(start: int, es: seq<Event>)
    requires ValidRun(start, es)
    ensures !After(start, es).s.traces[0].exited
    decreases |es|
  {
    if |es| > 0 {
      SentinelRuns(start, es[..|es| - 1]);
      var m, e := After(start, es[..|es| - 1]), es[|es| - 1];
      if e.ExitEvent? && m.s.traces[e.trace].parent.Some? {
        CompleteTraceRecords(Marked(m.s, e.trace, e.at), e.trace, 0);
      }
    }
  }

  /** The same for the transaction: when all the Sentinel's children have completed, the
      exclusive time recorded at the transaction's exit is the time in which it ran, was not
      stopped and had no child outstanding. */
  lemma SentinelExclusiveIsIdleTime(start: int, es: seq<Event>, now: int)
    requires ValidRun(start, es) && ReadyChildren(start, es, 0)
    requires After(start, es).clock <= now && Outstanding(After(start, es).s, 0) == {}
    ensures var m := After(start, es);
      FinishTransaction(m.s, now).exclusive == IdleTime(start, es, 0) + More(m, 0, now)
  {
    RunAccounts(start, es, 0);
    SentinelRuns(start, es);
  }
}
