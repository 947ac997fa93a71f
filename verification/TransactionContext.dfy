/** The context manager of newrelic/common/async_proxy.py that creates, enters and finishes a
    transaction around every step of a wrapped coroutine, generator or async generator. */
module TransactionContextModel {
  import opened Prelude

  datatype TransactionState = Pending | Running | Stopped

  /** How a step of the wrapped object ended. */
  datatype Exc = NoExc | StopIteration | StopAsyncIteration | GeneratorExit | CancelledError | OtherError

  /** `transaction == None` also stands for a factory that gave nothing.  `created`,
      `started` and `finished` count factory calls, successful starts and __exit__ calls on
      the transaction; `withError` tells how it was finished. */
  datatype Context = Context(
    hasInit: bool,
    transaction: Option<TransactionState>,
    isAsyncGenerator: bool,
    created: nat,
    started: nat,
    finished: nat,
    withError: bool)

  function Fresh(isAsyncGenerator: bool): Context {
    Context(true, None, isAsyncGenerator, 0, 0, 0, false)
  }

  /** `gives`: the factory returns a transaction; `starts`: its __enter__ takes effect (it is
      enabled and no other transaction is active). */
  function Create(c: Context, gives: bool): Context {
    if c.hasInit then c.(hasInit := false, created := c.created + 1,
                         transaction := if gives then Some(Pending) else None)
    else c
  }

  function Enter(c: Context, gives: bool, starts: bool): Context {
    var c' := Create(c, gives);
    if c'.transaction == Some(Pending) && starts
    then c'.(transaction := Some(Running), started := c'.started + 1) else c'
  }

  function Finish(c: Context, error: bool): Context {
    c.(transaction := Some(Stopped), finished := c.finished + 1, withError := error)
  }

  function Exit(c: Context, exc: Exc): Context {
    if c.transaction != Some(Running) then c
    else match exc
         case StopAsyncIteration => Finish(c, !c.isAsyncGenerator)
         case StopIteration => if c.isAsyncGenerator then c else Finish(c, false)
         case GeneratorExit => Finish(c, false)
         case CancelledError => Finish(c, false)
         case NoExc => c
         case OtherError => Finish(c, true)
  }

  function PreClose(c: Context): Context {
    c.(hasInit := false)
  }

  function Close(c: Context, starts: bool): Context {
    if c.transaction.None? || c.transaction.value.Pending? then c
    else Exit(Enter(c, false, starts), GeneratorExit)
  }

  // ----- runs --------------------------------------------------------------------------

  /** What the wrappers do with the context: send and throw (also while an asend, athrow or
      aclose coroutine is awaited) make Resume steps; close and aclose add the other two. */
  datatype Event =
    | Resume(exc: Exc, gives: bool, starts: bool)
    | PreCloses
    | Closes(again: bool)

  function Step(c: Context, e: Event): Context {
    match e
    case Resume(exc, gives, starts) => Exit(Enter(c, gives, starts), exc)
    case PreCloses => PreClose(c)
    case Closes(starts) => Close(c, starts)
  }

  function After(isAsyncGenerator: bool, es: seq<Event>): Context {
    if |es| == 0 then Fresh(isAsyncGenerator)
    else Step(After(isAsyncGenerator, es[..|es| - 1]), es[|es| - 1])
  }

  /** The steps that complete a running transaction. */
  predicate Completing(isAsyncGenerator: bool, e: Event) {
    match e
    case Resume(exc, _, _) => !exc.NoExc? && !(isAsyncGenerator && exc.StopIteration?)
    case PreCloses => false
    case Closes(_) => true
  }

  predicate Inv(c: Context) {
    && c.created <= 1 && c.started <= c.created && c.finished <= c.started
    && (c.hasInit ==> c.created == 0)
    && (c.created == 0 ==> c.transaction.None?)
    && (c.transaction == Some(Running) <==> c.started == 1 && c.finished == 0)
    && (c.transaction == Some(Stopped) <==> c.finished == 1)
  }

  /** Main result: over every sequence of steps the factory runs at most once, a transaction
      starts at most once and is finished at most once, and only if it started. */
  lemma {:induction false} AtMostOnce(isAsyncGenerator: bool, es: seq<Event>)
    ensures Inv(After(isAsyncGenerator, es)) && After(isAsyncGenerator, es).isAsyncGenerator == isAsyncGenerator
    decreases |es|
  {
    if |es| > 0 {
      AtMostOnce(isAsyncGenerator, es[..|es| - 1]);
      StepKeeps(After(isAsyncGenerator, es[..|es| - 1]), es[|es| - 1]);
    }
  }

  lemma EnterKeeps(c: Context, gives: bool, starts: bool)
    requires Inv(c)
    ensures Inv(Enter(c, gives, starts)) && Enter(c, gives, starts).isAsyncGenerator == c.isAsyncGenerator
  {
  }

  lemma ExitKeeps(c: Context, exc: Exc)
    requires Inv(c)
    ensures Inv(Exit(c, exc)) && Exit(c, exc).isAsyncGenerator == c.isAsyncGenerator
  {
  }

  lemma StepKeeps(c: Context, e: Event)
    requires Inv(c)
    ensures Inv(Step(c, e)) && Step(c, e).isAsyncGenerator == c.isAsyncGenerator
  {
    match e
    case Resume(exc, gives, starts) =>
      EnterKeeps(c, gives, starts);
      ExitKeeps(Enter(c, gives, starts), exc);
    case PreCloses =>
    case Closes(starts) =>
      EnterKeeps(c, false, starts);
      ExitKeeps(Enter(c, false, starts), GeneratorExit);
  }

  /** After step j the transaction had started, and step j completes. */
  predicate CompletedAt(isAsyncGenerator: bool, es: seq<Event>, j: nat)
    requires j < |es|
  {
    After(isAsyncGenerator, es[..j + 1]).started == 1 && Completing(isAsyncGenerator, es[j])
  }

  /** Main result: the transaction is finished exactly when a completing step came with it
      started; in particular a StopIteration never finishes that of an async generator, and
      the first StopAsyncIteration, cancellation or error always does. */
  lemma {:induction false} FinishedIffCompleted(isAsyncGenerator: bool, es: seq<Event>)
    ensures After(isAsyncGenerator, es).finished == 1
            <==> exists j: nat :: j < |es| && CompletedAt(isAsyncGenerator, es, j)
    decreases |es|
  {
    if |es| > 0 {
      var n := |es| - 1;
      var prefix := es[..n];
      FinishedIffCompleted(isAsyncGenerator, prefix);
      AtMostOnce(isAsyncGenerator, prefix);
      AtMostOnce(isAsyncGenerator, es);
      assert es[..n + 1] == es;
      forall j: nat | j < n
        ensures CompletedAt(isAsyncGenerator, es, j) == CompletedAt(isAsyncGenerator, prefix, j)
      {
        assert prefix[..j + 1] == es[..j + 1];
      }
      if After(isAsyncGenerator, es).finished == 1 {
        FinishedByStep(After(isAsyncGenerator, prefix), es[n]);
        if After(isAsyncGenerator, prefix).finished == 1 {
          var j: nat :| j < |prefix| && CompletedAt(isAsyncGenerator, prefix, j);
          assert CompletedAt(isAsyncGenerator, es, j);
        } else {
          assert CompletedAt(isAsyncGenerator, es, n);
        }
      } else {
        FinishedByStep(After(isAsyncGenerator, prefix), es[n]);
        assert !CompletedAt(isAsyncGenerator, es, n);
      }
    }
  }

  lemma FinishedByStep(c: Context, e: Event)
    requires Inv(c)
    ensures Step(c, e).finished == 1
            <==> c.finished == 1 || (Step(c, e).started == 1 && Completing(c.isAsyncGenerator, e))
  {
  }

  /** An error is reported exactly for exceptions that are no normal end: for an async
      generator StopAsyncIteration is one, for the others it is not. */
  lemma ReportedError(c: Context, exc: Exc, gives: bool, starts: bool)
    requires Inv(c) && c.finished == 0
    ensures var r := Step(c, Resume(exc, gives, starts));
      r.finished == 1 ==> (r.withError <==> exc.OtherError? || (exc.StopAsyncIteration? && !c.isAsyncGenerator))
  {
  }

  /** A close that comes before the first step prevents the transaction altogether. */
  lemma {:induction false} ClosedBeforeStart(isAsyncGenerator: bool, es: seq<Event>)
    requires |es| > 0 && es[0] == PreCloses
    ensures var c := After(isAsyncGenerator, es); c.created == 0 && c.transaction.None? && c.finished == 0
    ensures !After(isAsyncGenerator, es).hasInit
    decreases |es|
  {
    var prefix := es[..|es| - 1];
    if |prefix| == 0 {
      assert After(isAsyncGenerator, prefix) == Fresh(isAsyncGenerator);
    } else {
      ClosedBeforeStart(isAsyncGenerator, prefix);
    }
  }

  // ----- when a transaction is created and started, told by the events ------------------

  /** Step i is the first that resumes the wrapped object, and nothing was closed before it. */
  predicate Opens(es: seq<Event>, i: nat) {
    i < |es| && es[i].Resume? && forall k | 0 <= k < i :: es[k].Closes?
  }

  /** Some step opens, its factory gives a transaction, and step j, which is that one or resumes
      later, lets it start. */
  ghost predicate StartableAt(es: seq<Event>, j: nat) {
    && j < |es| && es[j].Resume? && es[j].starts
    && exists i: nat :: i <= j && Opens(es, i) && es[i].gives
  }

  ghost predicate Opened(es: seq<Event>) {
    exists i: nat :: Opens(es, i)
  }

  ghost predicate OpenedAndGiven(es: seq<Event>) {
    exists i: nat :: Opens(es, i) && es[i].gives
  }

  ghost predicate Started(es: seq<Event>) {
    exists j: nat :: StartableAt(es, j)
  }

  /** Nothing but closes of the context so far. */
  predicate Untouched(es: seq<Event>) {
    forall k | 0 <= k < |es| :: es[k].Closes?
  }

  lemma OpensAppend(es: seq<Event>, e: Event)
    ensures Opened(es + [e]) <==> Opened(es) || (e.Resume? && Untouched(es))
    ensures OpenedAndGiven(es + [e]) <==> OpenedAndGiven(es) || (e.Resume? && Untouched(es) && e.gives)
  {
    var all := es + [e];
    forall i: nat | i < |es|
      ensures Opens(all, i) <==> Opens(es, i)
    {
      assert forall k | 0 <= k <= i :: all[k] == es[k];
    }
    assert Opens(all, |es|) <==> e.Resume? && Untouched(es) by {
      assert forall k | 0 <= k < |es| :: all[k] == es[k];
    }
    if Opened(es) {
      var i: nat :| Opens(es, i);
      assert Opens(all, i);
    }
    if OpenedAndGiven(es) {
      var i: nat :| Opens(es, i) && es[i].gives;
      assert Opens(all, i);
    }
  }

  lemma StartedAppend(es: seq<Event>, e: Event)
    ensures Started(es + [e]) <==> Started(es) || (e.Resume? && e.starts && OpenedAndGiven(es + [e]))
  {
    var all := es + [e];
    forall i: nat | i < |es|
      ensures all[i] == es[i] && (Opens(all, i) <==> Opens(es, i))
    {
      assert forall k | 0 <= k <= i :: all[k] == es[k];
    }
    if Started(es) {
      var j: nat :| StartableAt(es, j);
      var i: nat :| i <= j && Opens(es, i) && es[i].gives;
      assert Opens(all, i) && StartableAt(all, j);
    }
    if e.Resume? && e.starts && OpenedAndGiven(all) {
      var i: nat :| Opens(all, i) && all[i].gives;
      assert StartableAt(all, |es|);
    }
    if Started(all) && !(e.Resume? && e.starts && OpenedAndGiven(all)) {
      var j: nat :| StartableAt(all, j);
      var i: nat :| i <= j && Opens(all, i) && all[i].gives;
      assert j < |es| && Opens(es, i) && StartableAt(es, j);
    }
  }

  /** The context and the events agree. */
  ghost predicate Told(c: Context, es: seq<Event>) {
    && (c.hasInit <==> Untouched(es))
    && (c.created == 1 <==> Opened(es)) && (c.transaction.Some? <==> OpenedAndGiven(es))
    && (c.started == 1 <==> Started(es))
  }

  /** Main result, told by the events alone: the factory runs exactly if some step resumes before
      anything is pre-closed, and the transaction starts exactly with the first step from then on
      that lets it, if the factory gave one. */
  lemma {:induction false} StartedIff(isAsyncGenerator: bool, es: seq<Event>)
    ensures Told(After(isAsyncGenerator, es), es)
    decreases |es|
  {
    if |es| > 0 {
      var prefix, e := es[..|es| - 1], es[|es| - 1];
      StartedIff(isAsyncGenerator, prefix);
      AtMostOnce(isAsyncGenerator, prefix);
      StartedStep(After(isAsyncGenerator, prefix), prefix, e);
      assert prefix + [e] == es;
    }
  }

  lemma EnterStarts(c: Context, gives: bool, starts: bool)
    requires Inv(c)
    ensures var r := Enter(c, gives, starts);
      && (r.started == 1 <==> c.started == 1 || (starts && r.transaction.Some?))
      && (r.transaction.Some? <==> c.transaction.Some? || (c.hasInit && gives))
  {
    if c.transaction.Some? {
      assert c.transaction.value.Pending? || c.transaction.value.Running? || c.transaction.value.Stopped?;
    }
  }

  lemma ExitKeepsBeginning(c: Context, exc: Exc)
    ensures var r := Exit(c, exc);
      && r.hasInit == c.hasInit && r.created == c.created && r.started == c.started
      && r.transaction.Some? == c.transaction.Some?
  {
  }

  lemma UntouchedAppend(es: seq<Event>, e: Event)
    ensures Untouched(es + [e]) <==> Untouched(es) && e.Closes?
  {
    assert forall k | 0 <= k < |es| :: (es + [e])[k] == es[k];
    assert (es + [e])[|es|] == e;
  }

  lemma EnterTold(c: Context, es: seq<Event>, e: Event)
    requires Inv(c) && Told(c, es) && e.Resume?
    ensures Told(Enter(c, e.gives, e.starts), es + [e])
  {
    EnterStarts(c, e.gives, e.starts);
    EnterKeeps(c, e.gives, e.starts);
    OpensAppend(es, e);
    StartedAppend(es, e);
    UntouchedAppend(es, e);
  }

  lemma StartedStep(c: Context, es: seq<Event>, e: Event)
    requires Inv(c) && Told(c, es)
    ensures Told(Step(c, e), es + [e])
  {
    if e.Resume? {
      EnterTold(c, es, e);
      ExitKeepsBeginning(Enter(c, e.gives, e.starts), e.exc);
    } else {
      OpensAppend(es, e);
      StartedAppend(es, e);
      UntouchedAppend(es, e);
      assert Step(c, e).transaction.Some? == c.transaction.Some? && Step(c, e).started == c.started;
    }
  }

  /** A run that goes on from a context. */
  function Steps(c: Context, es: seq<Event>): Context {
    if |es| == 0 then c else Step(Steps(c, es[..|es| - 1]), es[|es| - 1])
  }

  lemma {:induction false} AfterMore(isAsyncGenerator: bool, es: seq<Event>, more: seq<Event>)
    ensures After(isAsyncGenerator, es + more) == Steps(After(isAsyncGenerator, es), more)
    decreases |more|
  {
    if |more| == 0 {
      assert es + more == es;
    } else {
      AfterMore(isAsyncGenerator, es, more[..|more| - 1]);
      assert (es + more)[..|es + more| - 1] == es + more[..|more| - 1];
    }
  }

  lemma StepsMore(c: Context, es: seq<Event>, e: Event)
    ensures Steps(c, es + [e]) == Step(Steps(c, es), e)
  {
    assert (es + [e])[..|es|] == es;
  }

  lemma {:induction false} StepsKeep(c: Context, es: seq<Event>)
    requires Inv(c)
    ensures Inv(Steps(c, es)) && Steps(c, es).isAsyncGenerator == c.isAsyncGenerator
    decreases |es|
  {
    if |es| > 0 {
      StepsKeep(c, es[..|es| - 1]);
      StepKeeps(Steps(c, es[..|es| - 1]), es[|es| - 1]);
    }
  }

  /** The steps of `close()` on a wrapped coroutine whose own close ended with `exc`. */
  function CloseEvents(exc: Exc, gives: bool, starts: bool): seq<Event> {
    var ended := [PreCloses] + [Resume(exc, gives, starts)];
    if exc.NoExc? then ended + [Closes(starts)] else ended
  }

  /** Closing never leaves a transaction running, unless the wrapped close of an async
      generator's coroutine ends in a StopIteration. */
  lemma CloseFinishes(isAsyncGenerator: bool, es: seq<Event>, exc: Exc, gives: bool, starts: bool)
    requires !(isAsyncGenerator && exc.StopIteration?)
    ensures After(isAsyncGenerator, es + CloseEvents(exc, gives, starts)).transaction != Some(Running)
  {
    var c := After(isAsyncGenerator, es);
    AtMostOnce(isAsyncGenerator, es);
    AfterMore(isAsyncGenerator, es, CloseEvents(exc, gives, starts));
    EndFinishes(c, [PreCloses], exc, gives, starts);
  }

  /** Steps of any kind, then one that ends with `exc`, and a close if that is no end. */
  lemma EndFinishes(c: Context, es: seq<Event>, exc: Exc, gives: bool, starts: bool)
    requires Inv(c)
    ensures var ended := es + [Resume(exc, gives, starts)];
      && (!exc.NoExc? && !(c.isAsyncGenerator && exc.StopIteration?) ==> Steps(c, ended).transaction != Some(Running))
      && Steps(c, ended + [Closes(starts)]).transaction != Some(Running)
  {
    var ended := es + [Resume(exc, gives, starts)];
    StepsKeep(c, es);
    StepsMore(c, es, Resume(exc, gives, starts));
    StepsKeep(c, ended);
    StepsMore(c, ended, Closes(starts));
  }

  /** Awaiting: steps that do not end yet. */
  function Waits(n: nat, gives: bool, starts: bool): (es: seq<Event>)
    ensures |es| == n && forall k | 0 <= k < n :: es[k] == Resume(NoExc, gives, starts)
  {
    seq(n, _ => Resume(NoExc, gives, starts))
  }

  /** The steps of an awaited `aclose()`: the coroutine of the wrapped aclose is resumed until it
      ends with `exc`, and StopIteration is its normal end. */
  function AcloseEvents(waits: nat, exc: Exc, gives: bool, starts: bool): seq<Event> {
    var ended := ([PreCloses] + Waits(waits, gives, starts)) + [Resume(exc, gives, starts)];
    if exc.StopIteration? then ended + [Closes(starts)] else ended
  }

  lemma OneMoreWait(c: Context, n: nat, gives: bool, starts: bool)
    ensures Steps(c, Waits(n + 1, gives, starts))
            == Step(Steps(c, Waits(n, gives, starts)), Resume(NoExc, gives, starts))
  {
    assert Waits(n + 1, gives, starts)[..n] == Waits(n, gives, starts);
  }

  lemma {:induction false} StepsConcat(c: Context, es: seq<Event>, more: seq<Event>)
    ensures Steps(c, es + more) == Steps(Steps(c, es), more)
    decreases |more|
  {
    if |more| == 0 {
      assert es + more == es;
    } else {
      StepsConcat(c, es, more[..|more| - 1]);
      assert (es + more)[..|es + more| - 1] == es + more[..|more| - 1];
    }
  }

  lemma AcloseSteps(c: Context, waits: nat, exc: Exc, gives: bool, starts: bool)
    ensures var ended := Step(Steps(PreClose(c), Waits(waits, gives, starts)), Resume(exc, gives, starts));
      Steps(c, AcloseEvents(waits, exc, gives, starts))
      == if exc.StopIteration? then Step(ended, Closes(starts)) else ended
  {
    var first := [PreCloses] + Waits(waits, gives, starts);
    StepsMore(c, [], PreCloses);
    assert [] + [PreCloses] == [PreCloses];
    StepsConcat(c, [PreCloses], Waits(waits, gives, starts));
    StepsMore(c, first, Resume(exc, gives, starts));
    StepsMore(c, first + [Resume(exc, gives, starts)], Closes(starts));
  }

  /** Nor does an aclose that has ended, in any way. */
  lemma {:induction false} AcloseFinishes(es: seq<Event>, waits: nat, exc: Exc, gives: bool, starts: bool)
    requires !exc.NoExc?
    ensures After(true, es + AcloseEvents(waits, exc, gives, starts)).transaction != Some(Running)
  {
    AtMostOnce(true, es);
    AfterMore(true, es, AcloseEvents(waits, exc, gives, starts));
    EndFinishes(After(true, es), [PreCloses] + Waits(waits, gives, starts), exc, gives, starts);
  }
}

/** The classes TransactionContext and Coroutine. */
module TransactionContextObjects {
  import opened Prelude
  import opened M = TransactionContextModel

  /** The part of Transaction the context uses. */
  class Transaction {
    const startable: bool
    var state: TransactionState
    ghost var starts: nat
    ghost var exits: nat
    ghost var error: bool

    constructor (startable: bool)
      ensures this.startable == startable && state == Pending && starts == 0 && exits == 0 && !error
    {
      this.startable, state, starts, exits, error := startable, Pending, 0, 0, false;
    }

    method Enter()
      requires state == Pending
      modifies this`state, this`starts
      ensures state == (if startable then Running else Pending)
      ensures starts == old(starts) + if startable then 1 else 0
    {
      if !startable {
        return;
      }
      state := Running;
      starts := starts + 1;
    }

    method Exit(withError: bool)
      requires state == Running
      modifies this`state, this`exits, this`error
      ensures state == Stopped && exits == old(exits) + 1 && error == withError
    {
      state := Stopped;
      exits, error := exits + 1, withError;
    }
  }

  class TransactionContext {
    var transaction: Transaction?
    var transactionInit: bool
    var isAsyncGenerator: bool
    ghost var created: nat

    constructor (isAsyncGenerator: bool)
      ensures State() == M.Fresh(isAsyncGenerator)
    {
      transaction, transactionInit, created := null, true, 0;
      this.isAsyncGenerator := isAsyncGenerator;
    }

    ghost function State(): Context
      reads this, transaction
    {
      if transaction == null then Context(transactionInit, None, isAsyncGenerator, created, 0, 0, false)
      else Context(transactionInit, Some(transaction.state), isAsyncGenerator, created,
                   transaction.starts, transaction.exits, transaction.error)
    }

    /** A transaction is there only after its factory ran. */
    ghost predicate Valid()
      reads this
    {
      transactionInit ==> transaction == null
    }

    method PreClose()
      requires Valid()
      modifies this`transactionInit
      ensures Valid() && State() == M.PreClose(old(State()))
    {
      transactionInit := false;
    }

    method Enter(gives: bool, startable: bool)
      requires Valid()
      requires transaction != null ==> transaction.startable == startable
      modifies this`transaction, this`transactionInit, this`created, transaction
      ensures Valid() && State() == M.Enter(old(State()), gives, startable)
      ensures transaction != null ==> transaction.startable == startable
      ensures transaction == old(transaction) || fresh(transaction)
      ensures !transactionInit && (!old(transactionInit) ==> transaction == old(transaction))
    {
      if transactionInit {
        created := created + 1;
        if gives {
          transaction := new Transaction(startable);
        } else {
          transaction := null;
        }
        transactionInit := false;
      }
      if transaction == null {
        return;
      }
      if transaction.state == Pending {
        transaction.Enter();
      }
    }

    method Exit(exc: Exc)
      requires Valid()
      modifies transaction
      ensures Valid() && State() == M.Exit(old(State()), exc)
      ensures transaction != null ==> transaction.startable == old(transaction.startable)
    {
      if transaction == null || transaction.state != Running {
        return;
      }
      if exc == StopAsyncIteration {
        if isAsyncGenerator {
          transaction.Exit(false);
        } else {
          transaction.Exit(true);
        }
      } else if exc == StopIteration {
        if !isAsyncGenerator {
          transaction.Exit(false);
        }
      } else if exc == GeneratorExit || exc == CancelledError {
        transaction.Exit(false);
      } else if exc != NoExc {
        transaction.Exit(true);
      }
    }

    method Close(ghost startable: bool)
      requires Valid()
      requires transaction != null ==> transaction.startable == startable
      modifies this`transaction, this`transactionInit, this`created, transaction
      ensures Valid() && State() == M.Close(old(State()), startable)
    {
      if transaction == null {
        return;
      }
      if transaction.state != Pending {
        Enter(false, transaction.startable);
        Exit(GeneratorExit);
      }
    }
  }

  /** Coroutine.send, throw and close; `outcome` is how the wrapped call ended. */
  class Coroutine {
    const context: TransactionContext

    constructor (context: TransactionContext)
      ensures this.context == context
    {
      this.context := context;
    }

    method SendOrThrow(outcome: Exc, gives: bool, startable: bool)
      requires context.Valid()
      requires context.transaction != null ==> context.transaction.startable == startable
      modifies context, context.transaction
      ensures context.Valid()
      ensures context.State() == M.Step(old(context.State()), Resume(outcome, gives, startable))
    {
      context.Enter(gives, startable);
      context.Exit(outcome);
    }

    method Close(outcome: Exc, gives: bool, startable: bool)
      requires context.Valid()
      requires context.transaction != null ==> context.transaction.startable == startable
      modifies context, context.transaction
      ensures context.Valid()
      ensures var c := M.Step(M.Step(old(context.State()), PreCloses), Resume(outcome, gives, startable));
        context.State() == if outcome.NoExc? then M.Step(c, Closes(startable)) else c
    {
      context.PreClose();
      context.Enter(gives, startable);
      context.Exit(outcome);
      if outcome != NoExc {
        return;
      }
      context.Close(startable);
    }
  }

  /** AsyncGeneratorProxy.aclose; asend and athrow are coroutines of the same kind. */
  class AsyncGeneratorProxy {
    const context: TransactionContext

    constructor (context: TransactionContext)
      requires context.Valid()
      modifies context`isAsyncGenerator
      ensures this.context == context && context.Valid()
      ensures context.State() == old(context.State()).(isAsyncGenerator := true)
    {
      this.context := context;
      new;
      context.isAsyncGenerator := true;
    }

    /** One resumption of the wrapped aclose; once pre_close has run, no transaction is made. */
    method Resume(outcome: Exc, gives: bool, startable: bool)
      requires context.Valid() && !context.transactionInit
      requires context.transaction != null ==> context.transaction.startable == startable
      modifies context, context.transaction
      ensures context.Valid() && !context.transactionInit && context.transaction == old(context.transaction)
      ensures context.transaction != null ==> context.transaction.startable == startable
      ensures context.State() == M.Step(old(context.State()), M.Resume(outcome, gives, startable))
    {
      context.Enter(gives, startable);
      context.Exit(outcome);
    }

    method Await(waits: nat, gives: bool, startable: bool)
      requires context.Valid() && !context.transactionInit
      requires context.transaction != null ==> context.transaction.startable == startable
      modifies context, context.transaction
      ensures context.Valid() && !context.transactionInit && context.transaction == old(context.transaction)
      ensures context.transaction != null ==> context.transaction.startable == startable
      ensures context.State() == M.Steps(old(context.State()), Waits(waits, gives, startable))
    {
      for i := 0 to waits
        invariant context.Valid() && !context.transactionInit && context.transaction == old(context.transaction)
        invariant context.transaction != null ==> context.transaction.startable == startable
        invariant context.State() == M.Steps(old(context.State()), Waits(i, gives, startable))
      {
        M.OneMoreWait(old(context.State()), i, gives, startable);
        Resume(NoExc, gives, startable);
      }
    }

    /** `waits`: how often the coroutine of the wrapped aclose is resumed before it ends. */
    method Aclose(waits: nat, outcome: Exc, gives: bool, startable: bool)
      requires context.Valid()
      requires context.transaction != null ==> context.transaction.startable == startable
      modifies context, context.transaction
      ensures context.Valid()
      ensures context.State() == M.Steps(old(context.State()), AcloseEvents(waits, outcome, gives, startable))
    {
      M.AcloseSteps(context.State(), waits, outcome, gives, startable);
      context.PreClose();
      Await(waits, gives, startable);
      Resume(outcome, gives, startable);
      if outcome != StopIteration {
        return;
      }
      context.Close(startable);
    }
  }
}
