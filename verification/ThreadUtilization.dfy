/** newrelic/core/_thread_utilization.c: integrals of a count over time, kept up to date
    event by event.  Integrals are in thread-microseconds; the clock is positive and never
    goes back. */
module ThreadUtilizationModel {
  import opened Prelude

  /** The C struct UtilizationCount. */
  datatype Count = Count(active: int, current: int, previous: int, updated: int, fetched: int)

  function Reset(now: int): Count {
    Count(0, 0, 0, now, now)
  }

  function Adjust(c: Count, adjustment: int, now: int): Count {
    var current := c.current + c.active * Max(now - c.updated, 0);
    if adjustment == 0 then Count(c.active, current, current, now, now)
    else Count(c.active + adjustment, current, c.previous, now, c.fetched)
  }

  function FetchResult(c: Count, now: int): real {
    var elapsed := now - c.fetched;
    if elapsed <= 0 then 0.0
    else (Adjust(c, 0, now).current - c.previous) as real / elapsed as real
  }

  // ----- stays: the reference meaning --------------------------------------------------

  /** One request, or one thread: when it came and when it left. */
  datatype Stay = Stay(entered: int, left: Option<int>)

  function TimeOf(q: Stay, now: int): int {
    (if q.left.Some? then q.left.value else now) - q.entered
  }

  /** The time that all of them have been there so far. */
  function TotalTime(qs: seq<Stay>, now: int): int {
    if |qs| == 0 then 0 else TotalTime(qs[..|qs| - 1], now) + TimeOf(qs[|qs| - 1], now)
  }

  function StillThere(qs: seq<Stay>): int {
    if |qs| == 0 then 0 else StillThere(qs[..|qs| - 1]) + if qs[|qs| - 1].left.None? then 1 else 0
  }

  lemma {:induction false} TimeGrows(qs: seq<Stay>, t: int, now: int)
    ensures TotalTime(qs, now) == TotalTime(qs, t) + StillThere(qs) * (now - t)
    decreases |qs|
  {
    if |qs| > 0 {
      TimeGrows(qs[..|qs| - 1], t, now);
    }
  }

  lemma {:induction false} StayEnds(qs: seq<Stay>, i: nat, now: int)
    requires i < |qs| && qs[i].left.None?
    ensures var r := qs[i := qs[i].(left := Some(now))];
      && StillThere(r) == StillThere(qs) - 1
      && TotalTime(r, now) == TotalTime(qs, now)
    decreases |qs|
  {
    var n := |qs| - 1;
    var r := qs[i := qs[i].(left := Some(now))];
    if i == n {
      assert r[..n] == qs[..n];
    } else {
      assert r[..n] == qs[..n][i := qs[i].(left := Some(now))];
      StayEnds(qs[..n], i, now);
    }
  }

  lemma StayBegins(qs: seq<Stay>, now: int)
    ensures StillThere(qs + [Stay(now, None)]) == StillThere(qs) + 1
    ensures TotalTime(qs + [Stay(now, None)], now) == TotalTime(qs, now)
  {
    assert (qs + [Stay(now, None)])[..|qs|] == qs;
  }

  // ----- thread capacity over a run ----------------------------------------------------

  /** The set of known threads and the count that goes with it. */
  datatype Capacity<T> = Capacity(live: set<T>, count: Count)

  datatype ThreadEvent<T> =
    | Seen(thread: T, at: int)     // a thread enters a transaction, for the first time or again
    | Gone(thread: T, at: int)     // a thread is deleted, known or not
    | Fetched(at: int)

  function StepCapacity<T>(c: Capacity<T>, e: ThreadEvent<T>): Capacity<T> {
    match e
    case Seen(t, at) => if t in c.live then c else Capacity(c.live + {t}, Adjust(c.count, 1, at))
    case Gone(t, at) => if t in c.live then Capacity(c.live - {t}, Adjust(c.count, -1, at)) else c
    case Fetched(at) => c.(count := Adjust(c.count, 0, at))
  }

  function Last<T>(start: int, es: seq<ThreadEvent<T>>): int {
    if |es| == 0 then start else es[|es| - 1].at
  }

  predicate Ordered<T>(start: int, es: seq<ThreadEvent<T>>) {
    |es| > 0 ==> Ordered(start, es[..|es| - 1]) && Last(start, es[..|es| - 1]) <= es[|es| - 1].at
  }

  function After<T>(start: int, es: seq<ThreadEvent<T>>): Capacity<T> {
    if |es| == 0 then Capacity({}, Reset(start)) else StepCapacity(After(start, es[..|es| - 1]), es[|es| - 1])
  }

  /** The stays of all threads, and which of them is that of a living thread. */
  datatype Ledger<T> = Ledger(stays: seq<Stay>, own: map<T, nat>)

  function Enter<T>(l: Ledger<T>, t: T, at: int): Ledger<T> {
    if t in l.own then l else Ledger(l.stays + [Stay(at, None)], l.own[t := |l.stays|])
  }

  function Leave<T>(l: Ledger<T>, t: T, at: int): Ledger<T> {
    if t in l.own && l.own[t] < |l.stays| then
      Ledger(l.stays[l.own[t] := l.stays[l.own[t]].(left := Some(at))], l.own - {t})
    else l
  }

  /** The reference meaning of a run: who came and went when. */
  function Stays<T>(es: seq<ThreadEvent<T>>): Ledger<T> {
    if |es| == 0 then Ledger([], map[])
    else
      var l := Stays(es[..|es| - 1]);
      match es[|es| - 1]
      case Seen(t, at) => Enter(l, t, at)
      case Gone(t, at) => Leave(l, t, at)
      case Fetched(_) => l
  }

  /** Every living thread has its own open stay, and there are no others. */
  ghost predicate Owned<T>(l: Ledger<T>) {
    Holds(l) && StillThere(l.stays) == |l.own|
  }

  ghost predicate Holds<T>(l: Ledger<T>) {
    && (forall t | t in l.own :: l.own[t] < |l.stays| && l.stays[l.own[t]].left.None?)
    && (forall t, u | t in l.own && u in l.own && t != u :: l.own[t] != l.own[u])
  }

  lemma OneMoreOwner<T>(own: map<T, nat>, t: T, n: nat)
    requires t !in own
    ensures |own[t := n]| == |own| + 1 && own[t := n].Keys == own.Keys + {t}
  {
    assert own[t := n].Keys == own.Keys + {t};
    assert |own[t := n].Keys| == |own.Keys| + 1;
  }

  lemma OneOwnerLess<T>(own: map<T, nat>, t: T)
    requires t in own
    ensures |own - {t}| == |own| - 1 && (own - {t}).Keys == own.Keys - {t}
  {
    assert (own - {t}).Keys == own.Keys - {t};
    assert |(own - {t}).Keys| == |own.Keys| - 1;
  }

  lemma EnterOwned<T>(l: Ledger<T>, t: T, at: int)
    requires Owned(l)
    ensures Owned(Enter(l, t, at))
  {
    if t !in l.own {
      StayBegins(l.stays, at);
      OneMoreOwner(l.own, t, |l.stays|);
      EnterHolds(l, t, at);
    }
  }

  lemma EnterHolds<T>(l: Ledger<T>, t: T, at: int)
    requires Holds(l) && t !in l.own
    ensures Holds(Enter(l, t, at))
  {
  }

  lemma LeaveOwned<T>(l: Ledger<T>, t: T, at: int)
    requires Owned(l)
    ensures Owned(Leave(l, t, at))
  {
    if t in l.own {
      StayEnds(l.stays, l.own[t], at);
      OneOwnerLess(l.own, t);
    }
  }

  /** The areas that the fetches of a run reported: rate times length of period. */
  function ReportedArea<T(==)>(start: int, es: seq<ThreadEvent<T>>): real {
    if |es| == 0 then 0.0
    else
      var before, e := After(start, es[..|es| - 1]).count, es[|es| - 1];
      ReportedArea(start, es[..|es| - 1]) + if e.Fetched? then Reported(before, e.at) else 0.0
  }

  function Reported(c: Count, now: int): real {
    FetchResult(c, now) * (now - c.fetched) as real
  }

  lemma RateTimesPeriod(c: Count, now: int)
    requires c.fetched <= c.updated <= now
    requires c.fetched == c.updated ==> c.current == c.previous
    ensures Reported(c, now) == Adjust(c, 0, now).current as real - c.previous as real
  {
    var elapsed := now - c.fetched;
    if elapsed > 0 {
      var period := (Adjust(c, 0, now).current - c.previous) as real;
      assert period / elapsed as real * elapsed as real == period;
    } else {
      assert c.active * Max(now - c.updated, 0) == 0;
    }
  }

  /** The fields of the count are in order. */
  predicate InStep(c: Count) {
    c.fetched <= c.updated && (c.fetched == c.updated ==> c.current == c.previous)
  }

  /** Threads, count and integral are those of the stays. */
  ghost predicate Agrees<T>(c: Capacity<T>, l: Ledger<T>) {
    && Owned(l) && c.live == l.own.Keys && c.count.active == |c.live|
    && c.count.current == TotalTime(l.stays, c.count.updated)
  }

  ghost predicate Tracks<T>(start: int, es: seq<ThreadEvent<T>>) {
    var c := After(start, es);
    && Agrees(c, Stays(es)) && InStep(c.count) && c.count.updated <= Last(start, es)
    && ReportedArea(start, es) == c.count.previous as real
  }

  /** An event at the very time of the last fetch adds no area. */
  lemma AdjustKeepsOrder(c: Count, adjustment: int, now: int)
    requires c.fetched <= c.updated <= now && (c.fetched == c.updated ==> c.current == c.previous)
    ensures var r := Adjust(c, adjustment, now);
      r.fetched <= r.updated && (r.fetched == r.updated ==> r.current == r.previous)
  {
    if c.updated == now {
      assert c.active * Max(now - c.updated, 0) == 0;
    }
  }

  /** An adjustment brings the integral up to now. */
  lemma AdjustCatchesUp(c: Count, stays: seq<Stay>, adjustment: int, now: int)
    requires c.active == StillThere(stays) && c.current == TotalTime(stays, c.updated) && c.updated <= now
    ensures Adjust(c, adjustment, now).current == TotalTime(stays, now)
  {
    TimeGrows(stays, c.updated, now);
  }

  lemma NewStayCounts(c: Count, stays: seq<Stay>, at: int)
    requires c.active == StillThere(stays) && c.current == TotalTime(stays, c.updated) && c.updated <= at
    ensures Adjust(c, 1, at).current == TotalTime(stays + [Stay(at, None)], at)
  {
    AdjustCatchesUp(c, stays, 1, at);
    StayBegins(stays, at);
  }

  lemma EnterAgrees<T>(c: Capacity<T>, l: Ledger<T>, t: T, at: int)
    requires Agrees(c, l) && c.count.updated <= at
    ensures Agrees(StepCapacity(c, Seen(t, at)), Enter(l, t, at))
  {
    EnterOwned(l, t, at);
    if t !in l.own {
      OneMoreOwner(l.own, t, |l.stays|);
      NewStayCounts(c.count, l.stays, at);
    }
  }

  lemma LeaveAgrees<T>(c: Capacity<T>, l: Ledger<T>, t: T, at: int)
    requires Agrees(c, l) && c.count.updated <= at
    ensures Agrees(StepCapacity(c, Gone(t, at)), Leave(l, t, at))
  {
    LeaveOwned(l, t, at);
    if t in l.own {
      OneOwnerLess(l.own, t);
      AdjustCatchesUp(c.count, l.stays, -1, at);
      StayEnds(l.stays, l.own[t], at);
    }
  }

  lemma StepAgrees<T>(start: int, es: seq<ThreadEvent<T>>)
    requires |es| > 0 && Ordered(start, es) && Tracks(start, es[..|es| - 1])
    ensures Agrees(After(start, es), Stays(es)) && InStep(After(start, es).count)
    ensures After(start, es).count.updated <= Last(start, es)
  {
    var c, l, e := After(start, es[..|es| - 1]), Stays(es[..|es| - 1]), es[|es| - 1];
    match e
    case Seen(t, at) =>
      EnterAgrees(c, l, t, at);
      AdjustKeepsOrder(c.count, 1, at);
    case Gone(t, at) =>
      LeaveAgrees(c, l, t, at);
      AdjustKeepsOrder(c.count, -1, at);
    case Fetched(at) =>
      AdjustCatchesUp(c.count, l.stays, 0, at);
      AdjustKeepsOrder(c.count, 0, at);
  }

  lemma ReportStep<T>(start: int, es: seq<ThreadEvent<T>>)
    requires |es| > 0 && Ordered(start, es) && Tracks(start, es[..|es| - 1])
    ensures ReportedArea(start, es) == After(start, es).count.previous as real
    ensures es[|es| - 1].Fetched? ==> After(start, es).count.previous == After(start, es).count.current
  {
    var before, c, e := es[..|es| - 1], After(start, es[..|es| - 1]).count, es[|es| - 1];
    if e.Fetched? {
      RateTimesPeriod(c, e.at);
      assert ReportedArea(start, es) == ReportedArea(start, before) + Reported(c, e.at);
    } else {
      assert ReportedArea(start, es) == ReportedArea(start, before);
      assert After(start, es).count.previous == c.previous;
    }
  }

  /** Main result: over every sequence of threads entering transactions, being deleted and being
      fetched, the known threads are those still there, the active count is their number, the
      integral is the time all threads have been there, and successive fetches weighted by the
      time they cover add up to it. */
  lemma {:induction false} CapacityIsTracked<T>(start: int, es: seq<ThreadEvent<T>>)
    requires Ordered(start, es)
    ensures Tracks(start, es)
    decreases |es|
  {
    if |es| > 0 {
      CapacityIsTracked(start, es[..|es| - 1]);
      StepAgrees(start, es);
      ReportStep(start, es);
    }
  }

  /** Read at any time, the integral is the time that all threads have been there by then; and
      right after a fetch that is what all fetches together have reported. */
  lemma CapacityIsTimeThere<T>(start: int, es: seq<ThreadEvent<T>>, now: int)
    requires Ordered(start, es) && Last(start, es) <= now
    ensures Adjust(After(start, es).count, 0, now).current == TotalTime(Stays(es).stays, now)
    ensures |es| > 0 && es[|es| - 1].Fetched? ==>
              ReportedArea(start, es) == TotalTime(Stays(es).stays, es[|es| - 1].at) as real
  {
    CapacityIsTracked(start, es);
    AdjustCatchesUp(After(start, es).count, Stays(es).stays, 0, now);
    if |es| > 0 && es[|es| - 1].Fetched? {
      CapacityIsTracked(start, es[..|es| - 1]);
      ReportStep(start, es);
    }
  }

  // ----- fetched rates -----------------------------------------------------------------

  function Threads<T(==)>(start: int, es: seq<ThreadEvent<T>>): nat {
    |After(start, es).live|
  }

  /** Where the current period starts, in events: after the last fetch. */
  function PeriodStart<T>(es: seq<ThreadEvent<T>>): (n: nat)
    ensures n <= |es|
  {
    if |es| == 0 then 0 else if es[|es| - 1].Fetched? then |es| else PeriodStart(es[..|es| - 1])
  }

  /** All thread counts since the last fetch lie in [lo, hi]. */
  predicate PeriodWithin<T(==)>(start: int, es: seq<ThreadEvent<T>>, lo: int, hi: int) {
    forall n | PeriodStart(es) <= n <= |es| :: lo <= Threads(start, es[..n]) <= hi
  }

  lemma MulMono(a: int, b: int, d: int)
    requires a <= b && 0 <= d
    ensures a * d <= b * d
  {
  }

  lemma PeriodOfPrefix<T>(start: int, es: seq<ThreadEvent<T>>, lo: int, hi: int)
    requires |es| > 0 && !es[|es| - 1].Fetched? && PeriodWithin(start, es, lo, hi)
    ensures PeriodWithin(start, es[..|es| - 1], lo, hi)
  {
    var prefix := es[..|es| - 1];
    forall n | PeriodStart(prefix) <= n <= |prefix|
      ensures lo <= Threads(start, prefix[..n]) <= hi
    {
      assert prefix[..n] == es[..n];
    }
  }

  /** The area since the last fetch lies between lo and hi times the time. */
  predicate Bounded(c: Count, now: int, lo: int, hi: int) {
    var area := Adjust(c, 0, now).current - c.previous;
    lo * (now - c.fetched) <= area <= hi * (now - c.fetched)
  }

  /** The stretch since the last adjustment. */
  lemma StretchBounded(c: Count, now: int, lo: int, hi: int)
    requires lo <= c.active <= hi && c.updated <= now
    ensures lo * (now - c.updated) <= Adjust(c, 0, now).current - c.current <= hi * (now - c.updated)
  {
    MulMono(lo, c.active, now - c.updated);
    MulMono(c.active, hi, now - c.updated);
  }

  lemma StretchesAdd(k: int, a: int, b: int, c: int)
    ensures k * (b - a) + k * (c - b) == k * (c - a)
  {
  }

  lemma NewPeriodBounded(c: Count, now: int, lo: int, hi: int)
    requires c.fetched == c.updated <= now && c.current == c.previous && lo <= c.active <= hi
    ensures Bounded(c, now, lo, hi)
  {
    StretchBounded(c, now, lo, hi);
  }

  lemma PeriodGrows(c: Count, adjustment: int, at: int, now: int, lo: int, hi: int)
    requires adjustment != 0 && c.updated <= at <= now && Bounded(c, at, lo, hi) && lo <= c.active + adjustment <= hi
    ensures Bounded(Adjust(c, adjustment, at), now, lo, hi)
  {
    StretchBounded(Adjust(c, adjustment, at), now, lo, hi);
    StretchesAdd(lo, c.fetched, at, now);
    StretchesAdd(hi, c.fetched, at, now);
  }

  /** What an event other than a fetch does to the count: nothing, or one adjustment. */
  lemma CountStep<T>(c: Capacity<T>, e: ThreadEvent<T>)
    requires !e.Fetched? && c.count.active == |c.live|
    ensures var r := StepCapacity(c, e);
      && r.count.active == |r.live|
      && (r == c || (exists d: int :: d != 0 && r.count == Adjust(c.count, d, e.at)))
  {
    var r := StepCapacity(c, e);
    if r != c {
      var d := if e.Seen? then 1 else -1;
      assert r.count == Adjust(c.count, d, e.at);
    }
  }

  /** The area since the last fetch lies between the extreme counts times the time. */
  lemma {:induction false} PeriodBounded<T>(start: int, es: seq<ThreadEvent<T>>, now: int, lo: int, hi: int)
    requires Ordered(start, es) && Last(start, es) <= now && PeriodWithin(start, es, lo, hi)
    ensures Bounded(After(start, es).count, now, lo, hi)
    decreases |es|
  {
    assert es[..|es|] == es && lo <= Threads(start, es) <= hi;
    CapacityIsTracked(start, es);
    if |es| == 0 || es[|es| - 1].Fetched? {
      NewPeriodBounded(After(start, es).count, now, lo, hi);
    } else {
      PeriodOfPrefix(start, es, lo, hi);
      CapacityIsTracked(start, es[..|es| - 1]);
      var c, e := After(start, es[..|es| - 1]), es[|es| - 1];
      CountStep(c, e);
      if After(start, es) == c {
        PeriodBounded(start, es[..|es| - 1], now, lo, hi);
      } else {
        PeriodBounded(start, es[..|es| - 1], e.at, lo, hi);
        var d: int :| d != 0 && After(start, es).count == Adjust(c.count, d, e.at);
        PeriodGrows(c.count, d, e.at, now, lo, hi);
      }
    }
  }

  /** Every fetched rate lies between the least and the greatest thread count of its period. */
  lemma FetchBetweenExtremes<T>(start: int, es: seq<ThreadEvent<T>>, now: int, lo: int, hi: int)
    requires Ordered(start, es) && Last(start, es) <= now && PeriodWithin(start, es, lo, hi)
    requires After(start, es).count.fetched < now
    ensures lo as real <= FetchResult(After(start, es).count, now) <= hi as real
  {
    PeriodBounded(start, es, now, lo, hi);
    RateOfBounded(After(start, es).count, now, lo, hi);
  }

  /** A fetch at the time of the last one, or before, reports nothing. */
  lemma NothingElapsed(c: Count, now: int)
    requires now <= c.fetched
    ensures FetchResult(c, now) == 0.0
  {
  }

  lemma RateOfBounded(c: Count, now: int, lo: int, hi: int)
    requires Bounded(c, now, lo, hi) && c.fetched < now
    ensures lo as real <= FetchResult(c, now) <= hi as real
  {
    RateBetween(Adjust(c, 0, now).current - c.previous, now - c.fetched, lo, hi);
  }

  lemma RateBetween(area: int, elapsed: int, lo: int, hi: int)
    requires 0 < elapsed && lo * elapsed <= area <= hi * elapsed
    ensures lo as real <= area as real / elapsed as real <= hi as real
  {
    CastProduct(lo, elapsed);
    CastProduct(hi, elapsed);
    QuotientBetween(area as real, elapsed as real, lo as real, hi as real);
  }

  lemma CastProduct(a: int, b: int)
    ensures a as real * b as real == (a * b) as real
  {
  }

  lemma QuotientBetween(area: real, elapsed: real, lo: real, hi: real)
    requires elapsed > 0.0 && lo * elapsed <= area <= hi * elapsed
    ensures lo <= area / elapsed <= hi
  {
    var q := area / elapsed;
    assert q * elapsed == area;
    MulOrder(lo, q, elapsed);
    MulOrder(q, hi, elapsed);
  }

  lemma MulOrder(a: real, b: real, c: real)
    requires c > 0.0 && a * c <= b * c
    ensures a <= b
  {
  }

  // ----- requests ----------------------------------------------------------------------

  /** The request fields of NRUtilizationObject; `last == 0` means never adjusted. */
  datatype Requests = Requests(current: int, count: int, last: int)

  function AdjustRequests(r: Requests, adjustment: int, now: int): Requests {
    Requests(r.current + adjustment,
             if r.last != 0 then r.count + r.current * Max(now - r.last, 0) else r.count,
             now)
  }

  ghost predicate Accounts(r: Requests, qs: seq<Stay>) {
    && r.current == StillThere(qs)
    && 0 <= r.last
    && (if r.last == 0 then qs == [] && r.count == 0 else r.count == TotalTime(qs, r.last))
  }

  lemma TimePasses(r: Requests, qs: seq<Stay>, now: int)
    requires Accounts(r, qs) && r.last <= now && 0 < now
    ensures AdjustRequests(r, 0, now).count == TotalTime(qs, now)
  {
    if r.last != 0 {
      TimeGrows(qs, r.last, now);
    }
  }

  lemma RequestEnters(r: Requests, qs: seq<Stay>, now: int)
    requires Accounts(r, qs) && r.last <= now && 0 < now
    ensures Accounts(AdjustRequests(r, 1, now), qs + [Stay(now, None)])
  {
    TimePasses(r, qs, now);
    assert (qs + [Stay(now, None)])[..|qs|] == qs;
  }

  lemma RequestExits(r: Requests, qs: seq<Stay>, i: nat, now: int)
    requires Accounts(r, qs) && r.last <= now && 0 < now && i < |qs| && qs[i].left.None?
    ensures Accounts(AdjustRequests(r, -1, now), qs[i := qs[i].(left := Some(now))])
  {
    TimePasses(r, qs, now);
    StayEnds(qs, i, now);
  }

  // ----- matched runs of requests ------------------------------------------------------

  datatype RequestEvent = Enters(at: int) | Exits(request: nat, at: int) | Reads(at: int)

  function RunRequests(es: seq<RequestEvent>): seq<Stay>
    requires Matched(es)
    decreases |es|, 1
  {
    if |es| == 0 then []
    else
      var qs := RunRequests(es[..|es| - 1]);
      match es[|es| - 1]
      case Enters(at) => qs + [Stay(at, None)]
      case Exits(i, at) => qs[i := qs[i].(left := Some(at))]
      case Reads(_) => qs
  }

  function LastAt(es: seq<RequestEvent>): int {
    if |es| == 0 then 0 else es[|es| - 1].at
  }

  /** Times are positive and ordered, and only an open request exits. */
  predicate Matched(es: seq<RequestEvent>)
    decreases |es|, 0
  {
    |es| > 0 ==>
      && Matched(es[..|es| - 1])
      && var e := es[|es| - 1];
         && 0 < e.at && LastAt(es[..|es| - 1]) <= e.at
         && (e.Exits? ==> var qs := RunRequests(es[..|es| - 1]); e.request < |qs| && qs[e.request].left.None?)
  }

  function AfterRequests(es: seq<RequestEvent>): Requests {
    if |es| == 0 then Requests(0, 0, 0)
    else AdjustRequests(AfterRequests(es[..|es| - 1]),
                        if es[|es| - 1].Enters? then 1 else if es[|es| - 1].Exits? then -1 else 0,
                        es[|es| - 1].at)
  }

  /** Main result: over every matched run the accumulated utilization is the sum over all
      requests of their time in flight so far. */
  lemma {:induction false} UtilizationIsTimeInFlight(es: seq<RequestEvent>)
    requires Matched(es)
    ensures Accounts(AfterRequests(es), RunRequests(es)) && AfterRequests(es).last == LastAt(es)
    ensures AfterRequests(es).count == TotalTime(RunRequests(es), LastAt(es))
    decreases |es|
  {
    if |es| > 0 {
      var prefix, e := es[..|es| - 1], es[|es| - 1];
      UtilizationIsTimeInFlight(prefix);
      var r, qs := AfterRequests(prefix), RunRequests(prefix);
      match e
      case Enters(at) => RequestEnters(r, qs, at);
      case Exits(i, at) => RequestExits(r, qs, i, at);
      case Reads(at) => TimePasses(r, qs, at);
    }
  }
}

/** The extension type itself; each method stands for one call made under its lock. */
module ThreadUtilizationObjects {
  import opened Prelude
  import opened M = ThreadUtilizationModel

  class ThreadUtilization<Thread(==)> {
    var allThreads: set<Thread>
    var capacity: Count
    var requestsCurrent: int
    var requestsUtilizationCount: int
    var requestsUtilizationLast: int

    constructor (now: int)
      ensures Valid() && allThreads == {} && capacity == Reset(now) && RequestFields() == Requests(0, 0, 0)
    {
      allThreads, capacity := {}, Reset(now);
      requestsCurrent, requestsUtilizationCount, requestsUtilizationLast := 0, 0, 0;
    }

    /** The number of active threads is the size of the set of known threads. */
    predicate Valid()
      reads this
    {
      capacity.active == |allThreads|
    }

    function View(): Capacity<Thread>
      reads this
    {
      Capacity(allThreads, capacity)
    }

    function RequestFields(): Requests
      reads this
    {
      Requests(requestsCurrent, requestsUtilizationCount, requestsUtilizationLast)
    }

    method AdjustCapacity(adjustment: int, now: int) returns (utilization: int)
      modifies this`capacity
      ensures capacity == M.Adjust(old(capacity), adjustment, now) && utilization == capacity.current
    {
      utilization := now - capacity.updated;
      if utilization < 0 {
        utilization := 0;
      }
      utilization := capacity.active * utilization;
      capacity := capacity.(current := capacity.current + utilization);
      utilization := capacity.current;
      capacity := capacity.(updated := now, active := capacity.active + adjustment);
      if adjustment == 0 {
        capacity := capacity.(fetched := capacity.updated, previous := utilization);
      }
    }

    method AdjustRequestCount(adjustment: int, now: int) returns (utilization: int)
      modifies this`requestsCurrent, this`requestsUtilizationCount, this`requestsUtilizationLast
      ensures RequestFields() == M.AdjustRequests(old(RequestFields()), adjustment, now)
      ensures utilization == requestsUtilizationCount
    {
      utilization := requestsUtilizationCount;
      if requestsUtilizationLast != 0 {
        utilization := now - requestsUtilizationLast;
        if utilization < 0 {
          utilization := 0;
        }
        utilization := requestsCurrent * utilization;
        requestsUtilizationCount := requestsUtilizationCount + utilization;
        utilization := requestsUtilizationCount;
      }
      requestsUtilizationLast := now;
      requestsCurrent := requestsCurrent + adjustment;
    }

    method EnterTransaction(thread: Option<Thread>, now: int) returns (utilization: int)
      requires Valid()
      modifies this
      ensures Valid()
      ensures allThreads == old(allThreads) + if thread.Some? then {thread.value} else {}
      ensures capacity == if thread.Some? && thread.value !in old(allThreads) then M.Adjust(old(capacity), 1, now)
                          else old(capacity)
      ensures View() == if thread.Some? then M.StepCapacity(old(View()), Seen(thread.value, now)) else old(View())
      ensures RequestFields() == M.AdjustRequests(old(RequestFields()), 1, now)
      ensures utilization == requestsUtilizationCount
    {
      if thread.Some? {
        if thread.value !in allThreads {
          allThreads := allThreads + {thread.value};
          var _ := AdjustCapacity(1, now);
        }
      }
      utilization := AdjustRequestCount(1, now);
    }

    method ExitTransaction(now: int) returns (utilization: int)
      requires Valid()
      modifies this
      ensures Valid() && allThreads == old(allThreads) && capacity == old(capacity)
      ensures RequestFields() == M.AdjustRequests(old(RequestFields()), -1, now)
      ensures utilization == requestsUtilizationCount
    {
      utilization := AdjustRequestCount(-1, now);
    }

    method TotalThreads(now: int) returns (rate: real)
      requires Valid()
      modifies this
      ensures Valid() && allThreads == old(allThreads) && RequestFields() == old(RequestFields())
      ensures rate == M.FetchResult(old(capacity), now) && capacity == M.Adjust(old(capacity), 0, now)
      ensures View() == M.StepCapacity(old(View()), Fetched(now))
    {
      var lastFetched, previous := capacity.fetched, capacity.previous;
      var current := AdjustCapacity(0, now);
      var period := current - previous;
      var elapsed := capacity.updated - lastFetched;
      if elapsed <= 0 {
        return 0.0;
      }
      return period as real / elapsed as real;
    }

    method DeleteFromAll(thread: Thread, now: int)
      requires Valid()
      modifies this
      ensures Valid() && allThreads == old(allThreads) - {thread} && RequestFields() == old(RequestFields())
      ensures capacity == if thread in old(allThreads) then M.Adjust(old(capacity), -1, now) else old(capacity)
      ensures View() == M.StepCapacity(old(View()), Gone(thread, now))
    {
      if thread in allThreads {
        allThreads := allThreads - {thread};
        var _ := AdjustCapacity(-1, now);
      }
    }
  }
}
