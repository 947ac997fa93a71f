/** The upward walk that charges a finished batch of async children: every time unit of
    the batch goes to the nearest ancestor that was still running then. */
module TraceWalk {
  import opened Prelude
  import opened TraceModel
  import opened TraceInvariant

  /** The reference meaning: the first trace from i upwards that was running at time u. */
  function NearestRunning(s: State, i: nat, u: int): Option<nat>
    requires WellFormed(s) && i < |s.traces|
    decreases i
  {
    var t := s.traces[i];
    if !t.exited || u < t.endTime then Some(i)
    else if t.parent.None? then None
    else NearestRunning(s, t.parent.value, u)
  }

  /** How many of the time units in [lo, hi) have k as the nearest running ancestor. */
  function UnitsOf(s: State, i: nat, lo: int, hi: int, k: nat): nat
    requires WellFormed(s) && i < |s.traces| && lo <= hi
    decreases hi - lo
  {
    if lo == hi then 0
    else UnitsOf(s, i, lo, hi - 1, k) + if NearestRunning(s, i, hi - 1) == Some(k) then 1 else 0
  }

  /** No exited ancestor that the walk visits ended after the batch. */
  predicate VisitedWithin(s: State, i: nat, m: int, d: int)
    requires WellFormed(s) && i < |s.traces|
    decreases i
  {
    var t := s.traces[i];
    && (t.exited ==> t.endTime <= m + d)
    && (t.parent.Some? && d - Delta(t, m, d) > 0 ==>
          VisitedWithin(s, t.parent.value, NextStart(t, m), d - Delta(t, m, d)))
  }

  /** The walk charges every trace the units it was nearest running for. */
  predicate ChargesUnits(s: State, i: nat, m: int, d: int)
    requires WellFormed(s) && i < |s.traces| && 0 <= d
  {
    forall k: nat | k < |s.traces| ::
      UpdateAsyncExclusiveTime(s, i, m, d)[k] == s.exclusive[k] - UnitsOf(s, i, m, m + d, k)
  }

  lemma {:induction false} UnitsFromParent(s: State, i: nat, lo: int, hi: int, k: nat)
    requires WellFormed(s) && i < |s.traces| && lo <= hi
    requires s.traces[i].exited && s.traces[i].endTime <= lo
    ensures UnitsOf(s, i, lo, hi, k)
            == if s.traces[i].parent.None? then 0 else UnitsOf(s, s.traces[i].parent.value, lo, hi, k)
    decreases hi - lo
  {
    if lo < hi {
      UnitsFromParent(s, i, lo, hi - 1, k);
    }
  }

  lemma {:induction false} UnitsOwn(s: State, i: nat, lo: int, hi: int, k: nat)
    requires WellFormed(s) && i < |s.traces| && lo <= hi
    requires s.traces[i].exited ==> hi <= s.traces[i].endTime
    ensures UnitsOf(s, i, lo, hi, k) == if k == i then hi - lo else 0
    decreases hi - lo
  {
    if lo < hi {
      UnitsOwn(s, i, lo, hi - 1, k);
    }
  }

  lemma {:induction false} UnitsSplit(s: State, i: nat, lo: int, mid: int, hi: int, k: nat)
    requires WellFormed(s) && i < |s.traces| && lo <= mid <= hi
    ensures UnitsOf(s, i, lo, hi, k) == UnitsOf(s, i, lo, mid, k) + UnitsOf(s, i, mid, hi, k)
    decreases hi - mid
  {
    if mid < hi {
      UnitsSplit(s, i, lo, mid, hi - 1, k);
    }
  }

  /** Up to i the trees have the same links and exit times; they may differ in what has been
      charged so far. */
  predicate SamePath(s: State, r: State, i: nat) {
    && i < |s.traces| && i < |r.traces|
    && forall j: nat | j <= i ::
         && r.traces[j].parent == s.traces[j].parent && r.traces[j].exited == s.traces[j].exited
         && r.traces[j].endTime == s.traces[j].endTime
  }

  lemma {:induction false} NearestSame(s: State, r: State, i: nat, u: int)
    requires WellFormed(s) && WellFormed(r) && SamePath(s, r, i)
    ensures NearestRunning(r, i, u) == NearestRunning(s, i, u)
    decreases i
  {
    if s.traces[i].parent.Some? {
      NearestSame(s, r, s.traces[i].parent.value, u);
    }
  }

  lemma {:induction false} UnitsSame(s: State, r: State, i: nat, lo: int, hi: int, k: nat)
    requires WellFormed(s) && WellFormed(r) && SamePath(s, r, i) && lo <= hi
    ensures UnitsOf(r, i, lo, hi, k) == UnitsOf(s, i, lo, hi, k)
    decreases hi - lo
  {
    if lo < hi {
      UnitsSame(s, r, i, lo, hi - 1, k);
      NearestSame(s, r, i, hi - 1);
    }
  }

  lemma {:induction false} WithinSame(s: State, r: State, i: nat, m: int, d: int)
    requires WellFormed(s) && WellFormed(r) && r.traces == s.traces && i < |s.traces|
    ensures VisitedWithin(r, i, m, d) == VisitedWithin(s, i, m, d)
    decreases i
  {
    var t := s.traces[i];
    if t.parent.Some? {
      WithinSame(s, r, t.parent.value, NextStart(t, m), d - Delta(t, m, d));
    }
  }

  /** Units of i from m on: its own part, then those of its parent. */
  lemma UnitsStep(s: State, i: nat, m: int, d: int, k: nat)
    requires WellFormed(s) && i < |s.traces| && 0 <= d
    requires s.traces[i].exited ==> s.traces[i].endTime <= m + d
    ensures var t := s.traces[i]; var rest := d - Delta(t, m, d);
      && 0 <= rest && NextStart(t, m) + (if t.exited then rest else d) == m + d
      && UnitsOf(s, i, m, m + d, k)
         == (if k == i then Delta(t, m, d) else 0)
            + if t.parent.Some? && rest > 0 then UnitsOf(s, t.parent.value, NextStart(t, m), m + d, k) else 0
  {
    var t := s.traces[i];
    if !t.exited {
      UnitsOwn(s, i, m, m + d, k);
    } else {
      var mid := NextStart(t, m);
      UnitsSplit(s, i, m, mid, m + d, k);
      if mid > m {
        UnitsOwn(s, i, m, mid, k);
      }
      UnitsFromParent(s, i, mid, m + d, k);
    }
  }

  /** Within the window the walk charges exactly the units. */
  lemma {:induction false} WalkCharges(s: State, i: nat, m: int, d: int, k: nat)
    requires WellFormed(s) && i < |s.traces| && 0 <= d && k < |s.traces|
    requires VisitedWithin(s, i, m, d)
    ensures UpdateAsyncExclusiveTime(s, i, m, d)[k] == s.exclusive[k] - UnitsOf(s, i, m, m + d, k)
    decreases i
  {
    var t := s.traces[i];
    var rest := d - Delta(t, m, d);
    UnitsStep(s, i, m, d, k);
    if t.parent.Some? && rest > 0 {
      var s' := s.(exclusive := s.exclusive[i := s.exclusive[i] - Delta(t, m, d)]);
      WithinSame(s, s', t.parent.value, NextStart(t, m), rest);
      WalkCharges(s', t.parent.value, NextStart(t, m), rest, k);
      UnitsSame(s, s', t.parent.value, NextStart(t, m), m + d, k);
    }
  }

  /** Outside the window some ancestor is charged more than its units. */
  lemma {:induction false} WalkOvercharges(s: State, i: nat, m: int, d: int) returns (k: nat)
    requires WellFormed(s) && i < |s.traces| && 0 <= d
    requires !VisitedWithin(s, i, m, d)
    ensures k <= i
    ensures UpdateAsyncExclusiveTime(s, i, m, d)[k] < s.exclusive[k] - UnitsOf(s, i, m, m + d, k)
    decreases i
  {
    var t := s.traces[i];
    if t.exited && t.endTime > m + d {
      UnitsOwn(s, i, m, m + d, i);
      k := i;
    } else {
      var rest := d - Delta(t, m, d);
      var s' := s.(exclusive := s.exclusive[i := s.exclusive[i] - Delta(t, m, d)]);
      WithinSame(s, s', t.parent.value, NextStart(t, m), rest);
      k := WalkOvercharges(s', t.parent.value, NextStart(t, m), rest);
      UnitsStep(s, i, m, d, k);
      UnitsSame(s, s', t.parent.value, NextStart(t, m), m + d, k);
    }
  }

  /** Main result, with the exact condition: the walk charges each time unit of
      [m, m + d) once, to the nearest ancestor running then, if and only if no exited
      ancestor it visits ended after the batch did. */
  lemma WalkChargesNearestRunning(s: State, i: nat, m: int, d: int)
    requires WellFormed(s) && i < |s.traces| && 0 <= d
    ensures ChargesUnits(s, i, m, d) <==> VisitedWithin(s, i, m, d)
  {
    if VisitedWithin(s, i, m, d) {
      forall k: nat | k < |s.traces|
        ensures UpdateAsyncExclusiveTime(s, i, m, d)[k] == s.exclusive[k] - UnitsOf(s, i, m, m + d, k)
      {
        WalkCharges(s, i, m, d, k);
      }
    } else {
      var k := WalkOvercharges(s, i, m, d);
    }
  }

  // ----- the whole interval ------------------------------------------------------------

  predicate SomeoneRunning(s: State, i: nat)
    requires WellFormed(s) && i < |s.traces|
    decreases i
  {
    !s.traces[i].exited || (s.traces[i].parent.Some? && SomeoneRunning(s, s.traces[i].parent.value))
  }

  function Sum(xs: seq<int>): int {
    if |xs| == 0 then 0 else Sum(xs[..|xs| - 1]) + xs[|xs| - 1]
  }

  lemma {:induction false} SumUpdate(xs: seq<int>, i: nat, x: int)
    requires i < |xs|
    ensures Sum(xs[i := x]) == Sum(xs) - xs[i] + x
  {
    var n := |xs| - 1;
    if i == n {
      assert xs[i := x][..n] == xs[..n];
    } else {
      assert xs[i := x][..n] == xs[..n][i := x];
      SumUpdate(xs[..n], i, x);
    }
  }

  /** Conservation: with a running ancestor the walk takes exactly d off the tree as a
      whole, and what it hands on always adds up to the end of the batch. */
  lemma {:induction false} WholeIntervalCharged(s: State, i: nat, m: int, d: int)
    requires WellFormed(s) && i < |s.traces| && 0 <= d
    requires VisitedWithin(s, i, m, d) && SomeoneRunning(s, i)
    ensures Sum(UpdateAsyncExclusiveTime(s, i, m, d)) == Sum(s.exclusive) - d
    decreases i
  {
    var t := s.traces[i];
    var rest := d - Delta(t, m, d);
    var s' := s.(exclusive := s.exclusive[i := s.exclusive[i] - Delta(t, m, d)]);
    SumUpdate(s.exclusive, i, s.exclusive[i] - Delta(t, m, d));
    if t.exited && rest > 0 {
      RunningSame(s, s', t.parent.value);
      WithinSame(s, s', t.parent.value, NextStart(t, m), rest);
      WholeIntervalCharged(s', t.parent.value, NextStart(t, m), rest);
    }
  }

  lemma {:induction false} RunningSame(s: State, r: State, i: nat)
    requires WellFormed(s) && WellFormed(r) && r.traces == s.traces && i < |s.traces|
    ensures SomeoneRunning(r, i) == SomeoneRunning(s, i)
    decreases i
  {
    if s.traces[i].parent.Some? {
      RunningSame(s, r, s.traces[i].parent.value);
    }
  }

  // ----- the condition in reachable trees ----------------------------------------------

  predicate EndsBy(s: State, limit: int) {
    forall k: nat | k < |s.traces| && s.traces[k].exited :: s.traces[k].endTime <= limit
  }

  lemma {:induction false} EndsByWithin(s: State, i: nat, m: int, d: int)
    requires WellFormed(s) && i < |s.traces| && 0 <= d && EndsBy(s, m + d)
    ensures VisitedWithin(s, i, m, d)
    decreases i
  {
    var t := s.traces[i];
    if t.parent.Some? && t.exited {
      EndsByWithin(s, t.parent.value, NextStart(t, m), d - Delta(t, m, d));
    }
  }

  lemma {:induction false} CompleteTraceEnds(s: State, i: nat, limit: int)
    requires WellFormed(s) && i < |s.traces| && EndsBy(s, limit)
    ensures EndsBy(CompleteTrace(s, i), limit)
    ensures CompleteTrace(s, i).stopped == s.stopped && CompleteTrace(s, i).endTime == s.endTime
    decreases i
  {
    if i != 0 && ReadyToComplete(s.traces[i]) && s.traces[i].parent.Some? {
      CompleteOneShape(s, i);
      CompleteTraceEnds(CompleteOne(s, i), s.traces[i].parent.value, limit);
    }
  }

  predicate TimesBounded(m: Machine) {
    && EndsBy(m.s, EffectiveTime(m.s, m.clock))
    && (m.s.stopped ==> m.s.endTime <= m.clock)
    && (forall k: nat | k < |m.s.traces| && k > 0 :: m.s.traces[k].startTime <= EffectiveTime(m.s, m.clock))
  }

  lemma ExitTimes(m: Machine, c: nat, at: int)
    requires WellFormed(m.s) && TimesBounded(m) && 0 < c < |m.s.traces| && m.clock <= at
    ensures TimesBounded(Machine(Exit(m.s, c, at), at))
  {
    if m.s.traces[c].parent.Some? {
      var r := Marked(m.s, c, at);
      CompleteTraceEnds(r, c, EffectiveTime(m.s, at));
      forall k: nat | k < |r.traces|
        ensures CompleteTrace(r, c).traces[k].startTime == m.s.traces[k].startTime
      {
        CompleteTraceRecords(r, c, k);
      }
    }
  }

  lemma StepTimes(m: Machine, e: Event)
    requires WellFormed(m.s) && TimesBounded(m) && Enabled(m, e)
    ensures TimesBounded(Step(m, e))
  {
    if e.ExitEvent? {
      ExitTimes(m, e.trace, e.at);
    }
  }

  lemma {:induction false} ReachableTimesBounded(start: int, es: seq<Event>)
    requires ValidRun(start, es)
    ensures TimesBounded(After(start, es))
    decreases |es|
  {
    if |es| > 0 {
      ReachableTimesBounded(start, es[..|es| - 1]);
      StepTimes(After(start, es[..|es| - 1]), es[|es| - 1]);
    }
  }

  // ----- the exit that ends a batch ----------------------------------------------------

  /** k is i or an ancestor of it. */
  predicate OnPath(s: State, i: nat, k: nat)
    requires WellFormed(s) && i < |s.traces|
    decreases i
  {
    i == k || (s.traces[i].parent.Some? && OnPath(s, s.traces[i].parent.value, k))
  }

  predicate Above(s: State, i: nat, k: nat)
    requires WellFormed(s) && i < |s.traces|
  {
    s.traces[i].parent.Some? && OnPath(s, s.traces[i].parent.value, k)
  }

  lemma {:induction false} OnPathSame(s: State, r: State, i: nat, k: nat)
    requires WellFormed(s) && WellFormed(r) && SamePath(s, r, i)
    ensures OnPath(r, i, k) == OnPath(s, i, k)
    decreases i
  {
    if s.traces[i].parent.Some? {
      OnPathSame(s, r, s.traces[i].parent.value, k);
    }
  }

  lemma {:induction false} WalkStaysOnPath(s: State, i: nat, m: int, d: int, k: nat)
    requires WellFormed(s) && i < |s.traces| && k < |s.traces| && !OnPath(s, i, k)
    ensures UpdateAsyncExclusiveTime(s, i, m, d)[k] == s.exclusive[k]
    decreases i
  {
    var t := s.traces[i];
    if t.parent.Some? && d - Delta(t, m, d) > 0 {
      var s' := s.(exclusive := s.exclusive[i := s.exclusive[i] - Delta(t, m, d)]);
      OnPathSame(s, s', t.parent.value, k);
      WalkStaysOnPath(s', t.parent.value, NextStart(t, m), d - Delta(t, m, d), k);
    }
  }

  /** The tree in which the walk for a batch that c ends in p starts. */
  function WalkedTree(s: State, c: nat, p: nat): (r: State)
    requires WellFormed(s) && p < c < |s.traces| && s.traces[c].parent == Some(p)
    ensures WellFormed(r) && |r.traces| == |s.traces|
  {
    SetMinChildStart(AppendChild(ProcessNode(Detach(s, c), c), p, c), p, Some(EarliestStart(s.traces[p], s.traces[c])))
  }

  lemma WalkedTreeSame(s: State, c: nat, p: nat)
    requires WellFormed(s) && p < c < |s.traces| && s.traces[c].parent == Some(p)
    ensures var r := WalkedTree(s, c, p);
      SamePath(s, r, p) && r.exclusive == s.exclusive
  {
  }

  lemma WalkedTreeEnds(s: State, c: nat, p: nat, limit: int)
    requires WellFormed(s) && p < c < |s.traces| && s.traces[c].parent == Some(p) && EndsBy(s, limit)
    ensures EndsBy(WalkedTree(s, c, p), limit)
  {
  }

  /** c is the last outstanding child of an async parent p. */
  predicate EndsBatch(s: State, c: nat, p: nat)
    requires p < c < |s.traces|
  {
    && s.traces[c].parent == Some(p)
    && (s.traces[p].exited || s.traces[p].hasAsyncChildren)
    && s.traces[p].childCount == |s.traces[p].children| + 1
  }

  lemma CompleteOneWalks(s: State, c: nat, p: nat, m: int, d: int)
    requires WellFormed(s) && p < c < |s.traces| && EndsBatch(s, c, p)
    requires m == EarliestStart(s.traces[p], s.traces[c]) && m + d == s.traces[c].endTime
    ensures CompleteOne(s, c).exclusive == UpdateAsyncExclusiveTime(WalkedTree(s, c, p), p, m, d)
  {
    var s1 := ProcessNode(Detach(s, c), c);
    assert s1.traces[p] == s.traces[p] && s1.traces[c].isAsync;
    ProcessChildWalks(s1, p, c);
  }

  lemma ProcessChildWalks(s: State, p: nat, c: nat)
    requires WellFormed(s) && p < c < |s.traces| && s.traces[p].childCount == |s.traces[p].children| + 1
    ensures var m := EarliestStart(s.traces[p], s.traces[c]);
      ProcessChild(s, p, c, true).exclusive
      == UpdateAsyncExclusiveTime(SetMinChildStart(AppendChild(s, p, c), p, Some(m)), p, m, s.traces[c].endTime - m)
  {
    var s1 := AppendChild(s, p, c);
    assert !HasOutstandingChildren(s1.traces[p]);
    assert EarliestStart(s1.traces[p], s1.traces[c]) == EarliestStart(s.traces[p], s.traces[c]);
  }

  /** A completion charges at most the traces above. */
  lemma CompleteOneBelow(s: State, c: nat, k: nat)
    requires WellFormed(s) && 0 < c < |s.traces| && s.traces[c].parent.Some? && k < |s.traces| && !Above(s, c, k)
    ensures CompleteOne(s, c).exclusive[k] == s.exclusive[k]
  {
    var p := s.traces[c].parent.value;
    var s1 := ProcessNode(Detach(s, c), c);
    assert SamePath(s, s1, p) && s1.exclusive == s.exclusive;
    OnPathSame(s, s1, p, k);
    ProcessChildBelow(s1, p, c, s1.traces[c].isAsync, k);
  }

  lemma ProcessChildBelow(s: State, p: nat, c: nat, isAsync: bool, k: nat)
    requires WellFormed(s) && p < c < |s.traces| && k < |s.traces| && !OnPath(s, p, k)
    ensures ProcessChild(s, p, c, isAsync).exclusive[k] == s.exclusive[k]
  {
    if isAsync {
      var s1 := AppendChild(s, p, c);
      OnPathSame(s, s1, p, k);
      AddToBatchBelow(s1, p, c, k);
    }
  }

  lemma AddToBatchBelow(s: State, p: nat, c: nat, k: nat)
    requires WellFormed(s) && p < c < |s.traces| && k < |s.traces| && !OnPath(s, p, k)
    ensures AddToBatch(s, p, c).exclusive[k] == s.exclusive[k]
  {
    var m := EarliestStart(s.traces[p], s.traces[c]);
    var s1 := SetMinChildStart(s, p, Some(m));
    var d := s.traces[c].endTime - m;
    assert AddToBatch(s, p, c).exclusive
        == if HasOutstandingChildren(s.traces[p]) then s.exclusive else UpdateAsyncExclusiveTime(s1, p, m, d);
    OnPathSame(s, s1, p, k);
    WalkStaysOnPath(s1, p, m, d, k);
  }

  lemma {:induction false} CompleteTraceBelow(s: State, i: nat, k: nat)
    requires WellFormed(s) && i < |s.traces| && k < |s.traces| && !Above(s, i, k)
    ensures CompleteTrace(s, i).exclusive[k] == s.exclusive[k]
    decreases i
  {
    if i != 0 && ReadyToComplete(s.traces[i]) && s.traces[i].parent.Some? {
      var r, p := CompleteOne(s, i), s.traces[i].parent.value;
      CompleteOneShape(s, i);
      CompleteOneBelow(s, i, k);
      assert SamePath(s, r, p);
      OnPathSame(s, r, p, k);
      CompleteTraceBelow(r, p, k);
    }
  }

  lemma BatchTimes(m: Machine, c: nat, p: nat, now: int)
    requires WellFormed(m.s) && TimesBounded(m) && p < c < |m.s.traces| && m.clock <= now
    ensures var s1 := Marked(m.s, c, now); var end := EffectiveTime(m.s, now);
      && s1.traces[c].endTime == end && EndsBy(s1, end)
      && EarliestStart(s1.traces[p], s1.traces[c]) == EarliestStart(m.s.traces[p], m.s.traces[c]) <= end
  {
  }

  /** A walk in a tree r that differs from s only off the path. */
  lemma WalkToEnd(s: State, r: State, p: nat, m: int, d: int, k: nat)
    requires WellFormed(s) && WellFormed(r) && SamePath(s, r, p) && r.exclusive == s.exclusive
    requires k < |s.exclusive| && 0 <= d && EndsBy(r, m + d)
    ensures UpdateAsyncExclusiveTime(r, p, m, d)[k] == s.exclusive[k] - UnitsOf(s, p, m, m + d, k)
  {
    EndsByWithin(r, p, m, d);
    WalkCharges(r, p, m, d, k);
    UnitsSame(s, r, p, m, m + d, k);
  }

  lemma WalkedTreeCharges(s: State, c: nat, p: nat, m: int, end: int, k: nat)
    requires WellFormed(s) && p < c < |s.traces| && s.traces[c].parent == Some(p) && k < |s.traces|
    requires m <= end && EndsBy(s, end)
    ensures UpdateAsyncExclusiveTime(WalkedTree(s, c, p), p, m, end - m)[k] == s.exclusive[k] - UnitsOf(s, p, m, end, k)
  {
    WalkedTreeSame(s, c, p);
    WalkedTreeEnds(s, c, p, end);
    assert m + (end - m) == end;
    WalkToEnd(s, WalkedTree(s, c, p), p, m, end - m, k);
  }

  /** What completing c, the last of a batch in p that ends no earlier than any exit, charges. */
  lemma BatchCharged(s: State, c: nat, p: nat, m: int, end: int, k: nat)
    requires WellFormed(s) && p < c < |s.traces| && EndsBatch(s, c, p) && k < |s.traces|
    requires m == EarliestStart(s.traces[p], s.traces[c]) <= end == s.traces[c].endTime && EndsBy(s, end)
    ensures CompleteOne(s, c).exclusive[k] == s.exclusive[k] - UnitsOf(s, p, m, end, k)
  {
    CompleteOneWalks(s, c, p, m, end - m);
    WalkedTreeCharges(s, c, p, m, end, k);
  }

  lemma MarkedSame(s: State, c: nat, p: nat, now: int)
    requires WellFormed(s) && p < c < |s.traces|
    ensures var s1 := Marked(s, c, now);
      && SamePath(s, s1, p) && s1.traces[p] == s.traces[p] && s1.traces[c].parent == s.traces[c].parent
      && (forall k: nat | k < |s.traces| && k != c :: s1.exclusive[k] == s.exclusive[k])
  {
  }

  /** Main result for the step itself.  In any reachable tree let c, which runs with nothing
      outstanding below it, be the last outstanding child of a parent p that counts as async.
      When c exits, it completes into p, and of every other trace exactly those time units of
      the batch are taken for which it was the nearest running one from p upwards.  If p then
      completes as well, that changes only traces above p. */
  lemma ExitChargesBatch(start: int, es: seq<Event>, c: nat, p: nat, now: int, k: nat)
    requires ValidRun(start, es) && Enabled(After(start, es), ExitEvent(c, now)) && p < c
    requires EndsBatch(After(start, es).s, c, p) && !HasOutstandingChildren(After(start, es).s.traces[c])
    requires k < |After(start, es).s.traces| && k != c
    ensures var s := After(start, es).s; var m := EarliestStart(s.traces[p], s.traces[c]);
      var end := EffectiveTime(s, now); var r := CompleteOne(Marked(s, c, now), c);
      && m <= end && Exit(s, c, now) == CompleteTrace(r, p)
      && r.exclusive[k] == s.exclusive[k] - UnitsOf(s, p, m, end, k)
      && (!Above(s, p, k) ==> Exit(s, c, now).exclusive[k] == r.exclusive[k])
  {
    var s := After(start, es).s;
    var s1, m, end := Marked(s, c, now), EarliestStart(s.traces[p], s.traces[c]), EffectiveTime(s, now);
    ReachableTimesBounded(start, es);
    BatchTimes(After(start, es), c, p, now);
    MarkedSame(s, c, p, now);
    BatchCharged(s1, c, p, m, end, k);
    UnitsSame(s, s1, p, m, end, k);
    if !Above(s, p, k) {
      BatchThenBelow(s, s1, c, p, k);
    }
  }

  lemma BatchThenBelow(s: State, s1: State, c: nat, p: nat, k: nat)
    requires WellFormed(s) && WellFormed(s1) && p < c < |s1.traces| && SamePath(s, s1, p)
    requires s1.traces[c].parent == Some(p) && k < |s1.traces| && !Above(s, p, k)
    ensures CompleteTrace(CompleteOne(s1, c), p).exclusive[k] == CompleteOne(s1, c).exclusive[k]
  {
    var r := CompleteOne(s1, c);
    CompleteOneShape(s1, c);
    if s.traces[p].parent.Some? {
      OnPathSame(s, r, s.traces[p].parent.value, k);
    }
    CompleteTraceBelow(r, p, k);
  }
}
