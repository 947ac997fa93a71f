/** Which enters are traced, told by the events alone: the tree grows by one running trace under a
    parent that takes children and has not exited, while recording goes on, and is left alone
    otherwise. */
module TraceEntry {
  import opened Prelude
  import opened TraceModel
  import opened TraceInvariant

  /** Event j is the one that made trace i. */
  predicate MadeBy(start: int, es: seq<Event>, i: nat, j: nat)
    requires ValidRun(start, es)
  {
    && j < |es| && es[j].EnterEvent? && ValidRun(start, es[..j]) && ValidRun(start, es[..j + 1])
    && |After(start, es[..j]).s.traces| == i && |After(start, es[..j + 1]).s.traces| == i + 1
  }

  /** Trace i was not entered as a terminal one.  The Sentinel is none. */
  ghost predicate TakesChildren(start: int, es: seq<Event>, i: nat)
    requires ValidRun(start, es)
  {
    i == 0 || exists j: nat :: MadeBy(start, es, i, j) && !es[j].terminal
  }

  predicate HasExited(es: seq<Event>, i: nat) {
    exists j | 0 <= j < |es| :: es[j].ExitEvent? && es[j].trace == i
  }

  predicate WasStopped(es: seq<Event>) {
    exists j | 0 <= j < |es| :: es[j].StopEvent?
  }

  // ----- what the state remembers ------------------------------------------------------

  lemma ExitsAppend(es: seq<Event>, i: nat)
    requires |es| > 0
    ensures HasExited(es, i)
            <==> HasExited(es[..|es| - 1], i) || (es[|es| - 1].ExitEvent? && es[|es| - 1].trace == i)
    ensures WasStopped(es) <==> WasStopped(es[..|es| - 1]) || es[|es| - 1].StopEvent?
  {
    var prefix := es[..|es| - 1];
    assert forall j | 0 <= j < |prefix| :: prefix[j] == es[j];
  }

  lemma LiveUntilExit(s: State, i: nat)
    requires Settled(s, 0) && 0 < i < |s.traces| && !s.traces[i].exited
    ensures s.traces[i].parent.Some?
  {
  }

  lemma ExitRecords(s: State, c: nat, at: int, k: nat)
    requires Settled(s, 0) && WellFormed(s) && 0 < c < |s.traces| && !s.traces[c].exited && k < |s.traces|
    ensures var r := Exit(s, c, at);
      && |r.traces| == |s.traces| && r.traces[k].terminal == s.traces[k].terminal
      && (r.traces[k].exited <==> s.traces[k].exited || c == k)
  {
    LiveUntilExit(s, c);
    CompleteTraceRecords(Marked(s, c, at), c, k);
  }

  /** What one event does to the record of a trace that is there already. */
  lemma StepRecords(m: Machine, e: Event, k: nat)
    requires Inv(m.s, 0) && Enabled(m, e) && k < |m.s.traces|
    ensures var s, r := m.s, Step(m, e).s;
      && |s.traces| <= |r.traces|
      && r.traces[k].terminal == s.traces[k].terminal
      && (r.traces[k].exited <==> s.traces[k].exited || (e.ExitEvent? && e.trace == k))
  {
    if e.ExitEvent? {
      ExitRecords(m.s, e.trace, e.at, k);
    }
  }

  lemma StepStops(m: Machine, e: Event)
    requires Inv(m.s, 0) && Enabled(m, e) && (!m.s.stopped ==> m.s.endTime == 0)
    ensures var r := Step(m, e).s;
      (r.stopped <==> m.s.stopped || e.StopEvent?) && (!r.stopped ==> r.endTime == 0)
  {
    if e.ExitEvent? {
      LiveUntilExit(m.s, e.trace);
      CompleteTraceRecords(Marked(m.s, e.trace, e.at), e.trace, 0);
    }
  }

  lemma {:induction false} StoppedTold(start: int, es: seq<Event>)
    requires ValidRun(start, es)
    ensures var s := After(start, es).s; (s.stopped <==> WasStopped(es)) && (!s.stopped ==> s.endTime == 0)
    decreases |es|
  {
    if |es| > 0 {
      StoppedTold(start, es[..|es| - 1]);
      ReachableTreesKeepInvariant(start, es[..|es| - 1]);
      StepStops(After(start, es[..|es| - 1]), es[|es| - 1]);
      ExitsAppend(es, 0);
    }
  }

  lemma NewRecord(m: Machine, e: Event)
    requires WellFormed(m.s) && Enabled(m, e)
    ensures |Step(m, e).s.traces| == |m.s.traces|
            || (e.EnterEvent? && |Step(m, e).s.traces| == |m.s.traces| + 1
                && Step(m, e).s.traces[|m.s.traces|] == NewTrace(Some(e.parent), e.terminal, e.at))
  {
  }

  lemma {:induction false} ExitedTold(start: int, es: seq<Event>, i: nat)
    requires ValidRun(start, es) && i < |After(start, es).s.traces|
    ensures After(start, es).s.traces[i].exited <==> HasExited(es, i)
    decreases |es|
  {
    if |es| > 0 {
      var prefix, e := es[..|es| - 1], es[|es| - 1];
      var m := After(start, prefix);
      ReachableTreesKeepInvariant(start, prefix);
      ExitsAppend(es, i);
      if i < |m.s.traces| {
        ExitedTold(start, prefix, i);
        StepRecords(m, e, i);
      } else {
        NewRecord(m, e);
        NotThereYet(start, prefix, i);
      }
    }
  }

  lemma {:induction false} NotThereYet(start: int, es: seq<Event>, i: nat)
    requires ValidRun(start, es) && |After(start, es).s.traces| <= i
    ensures !HasExited(es, i)
    decreases |es|
  {
    if |es| > 0 {
      NewRecord(After(start, es[..|es| - 1]), es[|es| - 1]);
      NotThereYet(start, es[..|es| - 1], i);
      ExitsAppend(es, i);
    }
  }

  lemma CutTwice(es: seq<Event>, n: nat, j: nat)
    requires j <= n <= |es|
    ensures es[..n][..j] == es[..j]
  {
  }

  /** The flag a trace was made with stays. */
  lemma {:induction false} TerminalTold(start: int, es: seq<Event>, i: nat, j: nat)
    requires ValidRun(start, es) && MadeBy(start, es, i, j)
    ensures i < |After(start, es).s.traces| && After(start, es).s.traces[i].terminal == es[j].terminal
    decreases |es|
  {
    var n := |es| - 1;
    var m := After(start, es[..n]);
    CutTwice(es, n, j);
    if j == n {
      assert es[..j + 1] == es;
      NewRecord(m, es[n]);
    } else {
      CutTwice(es, n, j + 1);
      TerminalTold(start, es[..n], i, j);
      ReachableTreesKeepInvariant(start, es[..n]);
      StepRecords(m, es[n], i);
    }
  }

  lemma MadeEarlier(start: int, es: seq<Event>, i: nat, j: nat)
    requires ValidRun(start, es) && |es| > 0 && MadeBy(start, es[..|es| - 1], i, j)
    ensures MadeBy(start, es, i, j)
  {
    CutTwice(es, |es| - 1, j);
    CutTwice(es, |es| - 1, j + 1);
  }

  lemma MadeLast(start: int, es: seq<Event>, j: nat)
    requires ValidRun(start, es) && |es| == j + 1 && es[j].EnterEvent?
    requires |After(start, es).s.traces| == |After(start, es[..j]).s.traces| + 1
    ensures MadeBy(start, es, |After(start, es[..j]).s.traces|, j)
  {
    assert es[..j + 1] == es;
  }

  /** Every trace but the Sentinel was made by an event. */
  lemma {:induction false} SomeoneMade(start: int, es: seq<Event>, i: nat) returns (j: nat)
    requires ValidRun(start, es) && 0 < i < |After(start, es).s.traces|
    ensures MadeBy(start, es, i, j)
    decreases |es|
  {
    var n := |es| - 1;
    NewRecord(After(start, es[..n]), es[n]);
    if i < |After(start, es[..n]).s.traces| {
      j := SomeoneMade(start, es[..n], i);
      MadeEarlier(start, es, i, j);
    } else {
      j := n;
      MadeLast(start, es, n);
    }
  }

  lemma {:induction false} SentinelTakesChildren(start: int, es: seq<Event>)
    requires ValidRun(start, es)
    ensures !After(start, es).s.traces[0].terminal
    decreases |es|
  {
    if |es| > 0 {
      SentinelTakesChildren(start, es[..|es| - 1]);
      ReachableTreesKeepInvariant(start, es[..|es| - 1]);
      StepRecords(After(start, es[..|es| - 1]), es[|es| - 1], 0);
    }
  }

  lemma TakesChildrenTold(start: int, es: seq<Event>, i: nat)
    requires ValidRun(start, es) && i < |After(start, es).s.traces|
    ensures TakesChildren(start, es, i) <==> !After(start, es).s.traces[i].terminal
  {
    if i == 0 {
      SentinelTakesChildren(start, es);
    } else {
      var j := SomeoneMade(start, es, i);
      TerminalTold(start, es, i, j);
      if TakesChildren(start, es, i) {
        var l: nat :| MadeBy(start, es, i, l) && !es[l].terminal;
        TerminalTold(start, es, i, l);
      }
    }
  }

  // ----- result ------------------------------------------------------------------------

  /** The tree r is s with one more trace: it runs, has no children, and is an outstanding child
      of p, which is async from its second outstanding child on. */
  predicate OneMore(s: State, r: State, p: nat, terminal: bool, at: int) {
    var n := |s.traces|;
    && p < n == |s.exclusive| && |r.traces| == |r.exclusive| == n + 1
    && r == s.(traces := r.traces, exclusive := r.exclusive)
    && (forall k: nat | k < n && k != p :: r.traces[k] == s.traces[k])
    && (forall k: nat | k < n :: r.exclusive[k] == s.exclusive[k]) && r.exclusive[n] == 0
    && r.traces[p] == s.traces[p].(childCount := s.traces[p].childCount + 1,
                                   hasAsyncChildren := |Outstanding(s, p)| > 0)
    && r.traces[n] == Trace(Some(p), terminal, 0, [], at, 0, 0, false, false, false, None, 0)
    && Outstanding(r, p) == Outstanding(s, p) + {n} && Outstanding(r, n) == {}
  }

  lemma AddsOne(s: State, p: nat, terminal: bool, at: int)
    requires Inv(s, 0) && p < |s.traces| && !s.traces[p].terminal && !s.traces[p].exited && !s.stopped
    ensures OneMore(s, Enter(s, p, terminal, at), p, terminal, at)
  {
    var r, n := Enter(s, p, terminal, at), |s.traces|;
    assert r.traces[..n] == s.traces[p := IncrementChildCount(s.traces[p])];
    assert r.traces[n] == NewTrace(Some(p), terminal, at);
    OutstandingAfterEnter(s, p, r, p);
    OutstandingAfterEnter(s, p, r, n);
    assert s.traces[p].childCount - |s.traces[p].children| == |Outstanding(s, p)|;
  }

  /** Main result, told by the events alone: over every run, entering under the Sentinel or under
      a trace that was not entered as a terminal one adds exactly one trace, if the parent has not
      been exited and recording has not been stopped; otherwise it changes nothing. */
  lemma EnterAddsOne(start: int, es: seq<Event>, p: nat, terminal: bool, at: int)
    requires ValidRun(start, es) && Enabled(After(start, es), EnterEvent(p, terminal, at))
    ensures var s := After(start, es).s; var r := Step(After(start, es), EnterEvent(p, terminal, at)).s;
      if TakesChildren(start, es, p) && !HasExited(es, p) && !WasStopped(es) then OneMore(s, r, p, terminal, at)
      else r == s
  {
    ReachableTreesKeepInvariant(start, es);
    StoppedTold(start, es);
    ExitedTold(start, es, p);
    TakesChildrenTold(start, es, p);
    if TakesChildren(start, es, p) && !HasExited(es, p) && !WasStopped(es) {
      AddsOne(After(start, es).s, p, terminal, at);
    }
  }
}
