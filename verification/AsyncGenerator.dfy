/** async_generator_wrapper of newrelic/common/async_wrapper.py: an async generator that runs
    another one inside a trace and should be indistinguishable from it.

    A generator function is any machine: `body(state, sent)` is what it does when resumed.
    The async generator protocol that Python puts around such a body is `Drive`; it is applied
    both to the wrapped generator and to the wrapper, whose body is the source's loop. */
module AsyncGeneratorWrapper {
  import opened Prelude

  datatype Exc = GeneratorExit | StopAsyncIteration | StopIteration | RuntimeError | TypeError | Other(code: nat)

  /** What a resumed body sees at its yield; `None` is Python's None. */
  datatype Sent<V> = Value(value: Option<V>) | Throw(exc: Exc)

  datatype Out<S, V> = Yields(value: Option<V>, next: S) | Returns | Raises(exc: Exc)

  /** An async generator object.  `Defied` is one that yielded when it was being closed: what
      it does afterwards is not described here. */
  datatype Generator<S> = Fresh(start: S) | Suspended(at: S) | Finished | Defied

  datatype Op<V> = ASend(value: Option<V>) | AThrow(exc: Exc) | AClose

  datatype Reply<V> = Gave(value: Option<V>) | Raised(exc: Exc) | Done

  type Body<!S, !V> = (S, Sent<V>) -> Out<S, V>

  /** A body may not let StopAsyncIteration or StopIteration escape. */
  function Escaping(e: Exc): Exc {
    if e == StopAsyncIteration || e == StopIteration then RuntimeError else e
  }

  function Resumed<S, V>(o: Out<S, V>): (Generator<S>, Reply<V>) {
    match o
    case Yields(v, s) => (Suspended(s), Gave(v))
    case Returns => (Finished, Raised(StopAsyncIteration))
    case Raises(e) => (Finished, Raised(Escaping(e)))
  }

  /** aclose() throws GeneratorExit and expects the body to end. */
  function Closing<S, V>(o: Out<S, V>): (Generator<S>, Reply<V>) {
    match o
    case Yields(_, _) => (Defied, Raised(RuntimeError))
    case Returns => (Finished, Done)
    case Raises(e) => (Finished, if e == GeneratorExit then Done else Raised(Escaping(e)))
  }

  /** What the protocol hands to the body for an operation, if anything. */
  function Feeds<S, V>(g: Generator<S>, op: Op<V>): Option<Sent<V>> {
    match g
    case Fresh(_) => if op.ASend? && op.value.None? then Some(Value(None)) else None
    case Suspended(_) =>
      (match op
       case ASend(v) => Some(Value(v))
       case AThrow(e) => Some(Throw(e))
       case AClose => Some(Throw(GeneratorExit)))
    case _ => None
  }

  function Drive<S, V>(body: Body<S, V>, g: Generator<S>, op: Op<V>): (Generator<S>, Reply<V>)
    requires !g.Defied?
  {
    match g
    case Finished => (Finished, if op.AClose? then Done else Raised(StopAsyncIteration))
    case Fresh(s) =>
      (match op
       case ASend(v) => if v.Some? then (g, Raised(TypeError)) else Resumed(body(s, Value(None)))
       case AThrow(e) => (Finished, Raised(e))
       case AClose => (Finished, Done))
    case Suspended(s) =>
      (match op
       case ASend(v) => Resumed(body(s, Value(v)))
       case AThrow(e) => Resumed(body(s, Throw(e)))
       case AClose => Closing(body(s, Throw(GeneratorExit))))
  }

  /** The protocol where the body is not asked: a generator that has not started is closed or takes
      an exception without it, and takes no value; one that has ended only lets itself be closed. */
  lemma WithoutTheBody<S, V>(body: Body<S, V>, s: S, v: Option<V>, e: Exc)
    ensures Drive(body, Fresh(s), AClose) == (Finished, Done) && Drive(body, Fresh(s), AThrow(e)) == (Finished, Raised(e))
    ensures v.Some? ==> Drive(body, Fresh(s), ASend(v)) == (Fresh(s), Raised(TypeError))
    ensures Drive(body, Finished, AClose) == (Finished, Done)
    ensures Drive(body, Finished, ASend(v)) == (Finished, Raised(StopAsyncIteration))
    ensures Drive(body, Finished, AThrow(e)) == (Finished, Raised(StopAsyncIteration))
  {
  }

  /** And where it is: what it yields is given, what it raises is raised but for the exceptions that
      end an iteration, returning ends the iteration, and a close wants it to end. */
  lemma WithTheBody<S, V>(body: Body<S, V>, s: S, v: Option<V>)
    ensures var o := body(s, Value(v)); var (g, reply) := Drive(body, Suspended(s), ASend(v));
      match o
      case Yields(x, next) => g == Suspended(next) && reply == Gave(x)
      case Returns => g == Finished && reply == Raised(StopAsyncIteration)
      case Raises(e) =>
        g == Finished && reply == Raised(if e in [StopAsyncIteration, StopIteration] then RuntimeError else e)
    ensures var o := body(s, Throw(GeneratorExit)); var (g, reply) := Drive(body, Suspended(s), AClose);
      match o
      case Yields(_, _) => reply == Raised(RuntimeError)
      case Returns => g == Finished && reply == Done
      case Raises(e) => g == Finished && (reply == Done <==> e == GeneratorExit)
  {
  }

  // ----- the wrapper -------------------------------------------------------------------

  /** The wrapper's program points: before its first line, or at its yield with the wrapped
      generator in some state. */
  datatype Point<S> = Begin(start: S) | AtYield(inner: Generator<S>)

  /** What the wrapper's body does between two yields, in order: enter the trace, operate on the
      wrapped generator, leave the trace. */
  datatype Act<V> = Enters | Operates(op: Op<V>) | Leaves

  /** One piece of the wrapper's body, from a resumption to the next yield or to its end. */
  datatype Piece<S, V> = Piece(out: Out<Point<S>, V>, acts: seq<Act<V>>)

  /** Which operation the loop performs on the wrapped generator for what it sees at its yield. */
  function InnerOp<V>(sent: Sent<V>): Op<V> {
    match sent
    case Value(v) => ASend(v)
    case Throw(e) => if e == GeneratorExit then AClose else AThrow(e)
  }

  /** Awaiting an operation on the wrapped generator, and what the loop makes of its reply: the
      value is yielded on, a StopAsyncIteration is caught and ends the wrapper, any other
      exception leaves it; after a close GeneratorExit is raised again. */
  function Await<S, V>(body: Body<S, V>, g: Generator<S>, op: Op<V>): Piece<S, V> {
    if g.Defied? then Piece(Returns, [Operates(op)])
    else
      var (g', reply) := Drive(body, g, op);
      var out := match reply
        case Gave(v) => Yields(v, AtYield(g'))
        case Raised(e) => if e == StopAsyncIteration then Returns else Raises(e)
        case Done => Raises(GeneratorExit);
      Piece(out, [Operates(op)])
  }

  /** The end of a piece inside `with trace`: unless it stops at a yield, the block is left. */
  function InBlock<S, V>(p: Piece<S, V>): Piece<S, V> {
    match p.out
    case Yields(_, _) => p
    case Returns => p.(acts := p.acts + [Leaves])
    case Raises(_) => p.(acts := p.acts + [Leaves])
  }

  /** The wrapper: enter the block and start the wrapped generator, or go on from the yield. */
  function WrapperPiece<S, V>(body: Body<S, V>, p: Point<S>, sent: Sent<V>): Piece<S, V> {
    match p
    case Begin(s) =>
      var first := InBlock(Await(body, Fresh(s), ASend(None)));
      first.(acts := [Enters] + first.acts)
    case AtYield(g) => InBlock(Await(body, g, InnerOp(sent)))
  }

  function WrapperBody<S, V>(body: Body<S, V>): Body<Point<S>, V> {
    (p: Point<S>, sent: Sent<V>) => WrapperPiece(body, p, sent).out
  }

  /** The point at which a wrapper stands that is handed something. */
  function PointOf<S, V>(w: Generator<Point<S>>, op: Op<V>): Point<S>
    requires Feeds(w, op).Some?
  {
    if w.Fresh? then w.start else w.at
  }

  /** What the wrapper's body does when the wrapper is driven. */
  function Acts<S, V>(body: Body<S, V>, w: Generator<Point<S>>, op: Op<V>): seq<Act<V>> {
    var sent := Feeds(w, op);
    if sent.None? then [] else WrapperPiece(body, PointOf(w, op), sent.value).acts
  }

  // ----- runs --------------------------------------------------------------------------

  /** The generator after a run, and the run's replies. */
  function Run<S, V>(body: Body<S, V>, g: Generator<S>, ops: seq<Op<V>>): (Generator<S>, seq<Reply<V>>)
  {
    if |ops| == 0 then (g, [])
    else
      var (before, replies) := Run(body, g, ops[..|ops| - 1]);
      if before.Defied? then (before, replies)
      else
        var (after, reply) := Drive(body, before, ops[|ops| - 1]);
        (after, replies + [reply])
  }

  /** The wrapper of a generator after a run. */
  function Wrapped<S, V>(body: Body<S, V>, s: S, ops: seq<Op<V>>): (Generator<Point<S>>, seq<Reply<V>>) {
    Run(WrapperBody(body), Fresh(Begin(s)), ops)
  }

  /** All that the wrapper's body has done in a run. */
  function Log<S, V>(body: Body<S, V>, s: S, ops: seq<Op<V>>): seq<Act<V>> {
    if |ops| == 0 then []
    else
      var prefix, op := ops[..|ops| - 1], ops[|ops| - 1];
      Log(body, s, prefix) + Acts(body, Wrapped(body, s, prefix).0, op)
  }

  /** All that the body of g is handed in a run. */
  function Handed<S, V>(body: Body<S, V>, g: Generator<S>, ops: seq<Op<V>>): seq<Sent<V>> {
    if |ops| == 0 then []
    else
      var sent := Feeds(Run(body, g, ops[..|ops| - 1]).0, ops[|ops| - 1]);
      Handed(body, g, ops[..|ops| - 1]) + if sent.Some? then [sent.value] else []
  }

  /** The operations on the wrapped generator. */
  function Operations<V>(log: seq<Act<V>>): seq<Op<V>> {
    if |log| == 0 then []
    else
      Operations(log[..|log| - 1]) + match log[|log| - 1]
                                     case Operates(op) => [op]
                                     case Enters => []
                                     case Leaves => []
  }

  // ----- transparency ------------------------------------------------------------------

  /** Driver's view of a wrapper and of the generator it wraps. */
  ghost predicate Matches<S>(inner: Generator<S>, wrapper: Generator<Point<S>>) {
    match inner
    case Fresh(s) => wrapper == Fresh(Begin(s))
    case Suspended(s) => wrapper == Suspended(AtYield(Suspended(s)))
    case Finished => wrapper == Finished
    case Defied => wrapper == Finished
  }

  /** A GeneratorExit is thrown in and the body, which is suspended, does not raise. */
  predicate Swallows<S, V>(body: Body<S, V>, g: Generator<S>, op: Op<V>) {
    op == AThrow(GeneratorExit) && g.Suspended? && !body(g.at, Throw(GeneratorExit)).Raises?
  }

  lemma SuspendedMatches<S, V>(body: Body<S, V>, s: S, op: Op<V>)
    requires !Swallows(body, Suspended(s), op)
    ensures var (i, ri) := Drive(body, Suspended(s), op);
            var (w, rw) := Drive(WrapperBody(body), Suspended(AtYield(Suspended(s))), op);
      ri == rw && Matches(i, w)
  {
    var sent := Feeds(Suspended(s), op).value;
    assert WrapperBody(body)(AtYield(Suspended(s)), sent) == WrapperPiece(body, AtYield(Suspended(s)), sent).out;
  }

  lemma FreshMatches<S, V>(body: Body<S, V>, s: S, op: Op<V>)
    ensures var (i, ri) := Drive(body, Fresh(s), op);
            var (w, rw) := Drive(WrapperBody(body), Fresh(Begin(s)), op);
      ri == rw && Matches(i, w)
  {
    assert WrapperBody(body)(Begin(s), Value(None)) == WrapperPiece(body, Begin(s), Value(None)).out;
  }

  lemma StepMatches<S, V>(body: Body<S, V>, inner: Generator<S>, wrapper: Generator<Point<S>>, op: Op<V>)
    requires Matches(inner, wrapper) && !inner.Defied? && !Swallows(body, inner, op)
    ensures var (i, ri) := Drive(body, inner, op); var (w, rw) := Drive(WrapperBody(body), wrapper, op);
      ri == rw && Matches(i, w)
  {
    match inner
    case Finished =>
    case Fresh(s) => FreshMatches(body, s, op);
    case Suspended(s) => SuspendedMatches(body, s, op);
  }

  /** The wrapper hides it when a thrown GeneratorExit is swallowed: it throws one itself. */
  lemma SwallowedDiffers<S, V>(body: Body<S, V>, s: S)
    requires Swallows(body, Suspended(s), AThrow(GeneratorExit))
    ensures var op: Op<V> := AThrow(GeneratorExit);
      Drive(body, Suspended(s), op).1 != Drive(WrapperBody(body), Suspended(AtYield(Suspended(s))), op).1
  {
    var sent: Sent<V> := Throw(GeneratorExit);
    assert WrapperBody(body)(AtYield(Suspended(s)), sent) == WrapperPiece(body, AtYield(Suspended(s)), sent).out;
  }

  /** Throwing GeneratorExit in becomes a close.  The reply is the same exactly when the body
      answers it by raising. */
  lemma ThrownGeneratorExit<S, V>(body: Body<S, V>, s: S)
    ensures var op: Op<V> := AThrow(GeneratorExit);
      Drive(body, Suspended(s), op).1 == Drive(WrapperBody(body), Suspended(AtYield(Suspended(s))), op).1
      <==> body(s, Throw(GeneratorExit)).Raises?
  {
    if body(s, Throw(GeneratorExit)).Raises? {
      SuspendedMatches(body, s, AThrow(GeneratorExit));
    } else {
      SwallowedDiffers(body, s);
    }
  }

  /** The run goes on to its last operation: only then may the generator have defied a close. */
  predicate Covered<S, V>(body: Body<S, V>, s: S, ops: seq<Op<V>>) {
    |ops| > 0 ==> !Run(body, Fresh(s), ops[..|ops| - 1]).0.Defied?
  }

  predicate SwallowedAt<S, V>(body: Body<S, V>, s: S, ops: seq<Op<V>>, k: nat)
    requires k < |ops|
  {
    Swallows(body, Run(body, Fresh(s), ops[..k]).0, ops[k])
  }

  predicate NoneSwallowed<S, V>(body: Body<S, V>, s: S, ops: seq<Op<V>>) {
    forall k | 0 <= k < |ops| :: !SwallowedAt(body, s, ops, k)
  }

  lemma NoneSwallowedBefore<S, V>(body: Body<S, V>, s: S, ops: seq<Op<V>>)
    requires |ops| > 0
    ensures NoneSwallowed(body, s, ops)
            <==> NoneSwallowed(body, s, ops[..|ops| - 1]) && !SwallowedAt(body, s, ops, |ops| - 1)
  {
    var prefix := ops[..|ops| - 1];
    forall k | 0 <= k < |prefix|
      ensures SwallowedAt(body, s, prefix, k) == SwallowedAt(body, s, ops, k)
    {
      assert prefix[..k] == ops[..k];
    }
    if NoneSwallowed(body, s, ops) {
      forall k | 0 <= k < |prefix|
        ensures !SwallowedAt(body, s, prefix, k)
      {
        assert !SwallowedAt(body, s, ops, k);
      }
    }
  }

  lemma {:induction false} CoveredBefore<S, V>(body: Body<S, V>, s: S, ops: seq<Op<V>>)
    requires |ops| > 0 && Covered(body, s, ops)
    ensures Covered(body, s, ops[..|ops| - 1])
    ensures |Run(body, Fresh(s), ops).1| == |Run(body, Fresh(s), ops[..|ops| - 1]).1| + 1
  {
  }

  lemma {:induction false} WrapperObeys<S, V>(body: Body<S, V>, s: S, ops: seq<Op<V>>)
    ensures var w := Wrapped(body, s, ops).0;
      && !w.Defied? && (w.Fresh? ==> w == Fresh(Begin(s))) && (w.Suspended? ==> w.at.AtYield?)
    ensures |Wrapped(body, s, ops).1| == |ops|
    decreases |ops|
  {
    if |ops| > 0 {
      WrapperObeys(body, s, ops[..|ops| - 1]);
      StepObeys(body, s, Wrapped(body, s, ops[..|ops| - 1]).0, ops[|ops| - 1]);
    }
  }

  /** The wrapper never yields when it is being closed. */
  lemma StepObeys<S, V>(body: Body<S, V>, s: S, w: Generator<Point<S>>, op: Op<V>)
    requires !w.Defied? && (w.Fresh? ==> w == Fresh(Begin(s))) && (w.Suspended? ==> w.at.AtYield?)
    ensures var r := Drive(WrapperBody(body), w, op).0;
      && !r.Defied? && (r.Fresh? ==> r == Fresh(Begin(s))) && (r.Suspended? ==> r.at.AtYield?)
  {
    if w.Suspended? {
      var sent := Feeds(w, op).value;
      assert WrapperBody(body)(w.at, sent) == WrapperPiece(body, w.at, sent).out;
    } else if w.Fresh? {
      assert WrapperBody(body)(w.start, Value(None)) == WrapperPiece(body, w.start, Value(None)).out;
    }
  }

  /** Main result, with the exact condition: for every generator and every sequence of asend,
      athrow and aclose the driver gets the same replies with the wrapper as without it if and
      only if no thrown GeneratorExit is answered by yielding or returning; and then the two
      generators stay in step. */
  lemma {:induction false} WrapperIsTransparent<S, V>(body: Body<S, V>, s: S, ops: seq<Op<V>>)
    requires Covered(body, s, ops)
    ensures Wrapped(body, s, ops).1 == Run(body, Fresh(s), ops).1 <==> NoneSwallowed(body, s, ops)
    ensures NoneSwallowed(body, s, ops) ==> Matches(Run(body, Fresh(s), ops).0, Wrapped(body, s, ops).0)
    decreases |ops|
  {
    if |ops| > 0 {
      var prefix := ops[..|ops| - 1];
      CoveredBefore(body, s, ops);
      WrapperIsTransparent(body, s, prefix);
      NoneSwallowedBefore(body, s, ops);
      WrapperObeys(body, s, prefix);
      LastReplies(body, s, ops);
      if NoneSwallowed(body, s, prefix) {
        LastStep(body, s, ops);
      }
    }
  }

  lemma LastReplies<S, V>(body: Body<S, V>, s: S, ops: seq<Op<V>>)
    requires |ops| > 0 && Covered(body, s, ops) && !Wrapped(body, s, ops[..|ops| - 1]).0.Defied?
    ensures var prefix, op := ops[..|ops| - 1], ops[|ops| - 1];
            var (i, ri) := Run(body, Fresh(s), prefix); var (w, rw) := Wrapped(body, s, prefix);
      && Run(body, Fresh(s), ops).1 == ri + [Drive(body, i, op).1]
      && Wrapped(body, s, ops).1 == rw + [Drive(WrapperBody(body), w, op).1]
      && (Wrapped(body, s, ops).1 == Run(body, Fresh(s), ops).1
          <==> rw == ri && Drive(body, i, op).1 == Drive(WrapperBody(body), w, op).1)
  {
    var prefix, op := ops[..|ops| - 1], ops[|ops| - 1];
    var (i, ri) := Run(body, Fresh(s), prefix);
    var (w, rw) := Wrapped(body, s, prefix);
    AppendedSame(rw, Drive(WrapperBody(body), w, op).1, ri, Drive(body, i, op).1);
  }

  lemma AppendedSame<R>(a: seq<R>, x: R, b: seq<R>, y: R)
    ensures a + [x] == b + [y] <==> a == b && x == y
  {
    if a + [x] == b + [y] {
      assert (a + [x])[..|a|] == a && (b + [y])[..|b|] == b;
      assert (a + [x])[|a|] == x && (b + [y])[|b|] == y;
    }
  }

  lemma LastStep<S, V>(body: Body<S, V>, s: S, ops: seq<Op<V>>)
    requires |ops| > 0 && Covered(body, s, ops)
    requires var prefix := ops[..|ops| - 1];
      Matches(Run(body, Fresh(s), prefix).0, Wrapped(body, s, prefix).0)
    ensures var prefix, op := ops[..|ops| - 1], ops[|ops| - 1];
      var i, w := Run(body, Fresh(s), prefix).0, Wrapped(body, s, prefix).0;
      && (Drive(body, i, op).1 == Drive(WrapperBody(body), w, op).1 <==> !SwallowedAt(body, s, ops, |ops| - 1))
      && (!SwallowedAt(body, s, ops, |ops| - 1) ==> Matches(Run(body, Fresh(s), ops).0, Wrapped(body, s, ops).0))
  {
    var i, w, op := Run(body, Fresh(s), ops[..|ops| - 1]).0, Wrapped(body, s, ops[..|ops| - 1]).0, ops[|ops| - 1];
    if Swallows(body, i, op) {
      SwallowedDiffers(body, i.at);
    } else {
      StepMatches(body, i, w, op);
    }
  }

  /** A body that yields until something is thrown in, and then ends quietly. */
  function QuietBody(): Body<int, int> {
    (s: int, sent: Sent<int>) => if sent.Throw? then Returns else Yields(None, s)
  }

  lemma {:induction false} RunOfOne<S, V>(body: Body<S, V>, g: Generator<S>, op: Op<V>)
    requires !g.Defied?
    ensures Run(body, g, [op]) == (Drive(body, g, op).0, [Drive(body, g, op).1])
  {
    assert [op][..0] == [];
    var reply := Drive(body, g, op).1;
    assert [] + [reply] == [reply];
  }

  lemma {:induction false} RunOfTwo<S, V>(body: Body<S, V>, g: Generator<S>, a: Op<V>, b: Op<V>)
    requires !g.Defied? && !Drive(body, g, a).0.Defied?
    ensures var (h, x) := Drive(body, g, a); Run(body, g, [a, b]).1 == [x, Drive(body, h, b).1]
  {
    RunOfOne(body, g, a);
    assert [a, b][..1] == [a];
  }

  /** The driver sees the difference: without the wrapper the generator ends, with it the
      GeneratorExit comes back. */
  lemma QuietEndIsHidden()
    ensures var ops: seq<Op<int>> := [ASend(None), AThrow(GeneratorExit)];
      && Run(QuietBody(), Fresh(0), ops).1 == [Gave(None), Raised(StopAsyncIteration)]
      && Wrapped(QuietBody(), 0, ops).1 == [Gave(None), Raised(GeneratorExit)]
  {
    var a, b: Op<int> := ASend(None), AThrow(GeneratorExit);
    RunOfTwo(QuietBody(), Fresh(0), a, b);
    assert WrapperBody(QuietBody())(Begin(0), Value(None)) == Yields(None, AtYield(Suspended(0)));
    assert WrapperBody(QuietBody())(AtYield(Suspended(0)), Throw(GeneratorExit)) == Raises(GeneratorExit);
    RunOfTwo(WrapperBody(QuietBody()), Fresh(Begin(0)), a, b);
  }

  // ----- the trace around it -----------------------------------------------------------

  /** The trace is entered once and first, everything else happens before it is left. */
  predicate Spans<V>(log: seq<Act<V>>) {
    && (forall k | 0 <= k < |log| :: log[k].Enters? <==> k == 0)
    && (forall k | 0 <= k < |log| :: log[k].Leaves? ==> k == |log| - 1)
  }

  predicate IsLeft<V>(log: seq<Act<V>>) {
    |log| > 0 && log[|log| - 1].Leaves?
  }

  /** Where the log of a wrapper stands: nothing before the first step, inside the block while
      it is suspended, and left once it has ended. */
  ghost predicate LogFits<S, V>(w: Generator<Point<S>>, log: seq<Act<V>>) {
    && Spans(log)
    && (w.Fresh? ==> log == [])
    && (w.Suspended? ==> |log| > 0 && !IsLeft(log))
    && (w.Finished? ==> log == [] || IsLeft(log))
  }

  /** An operation, with the entry before it if it is the first. */
  function Operating<V>(first: bool, op: Op<V>): seq<Act<V>> {
    if first then [Enters, Operates(op)] else [Operates(op)]
  }

  /** What one step adds: the operation it stands for, with the entry before the first one and
      the exit after one that ends the wrapper. */
  lemma StepActs<S, V>(body: Body<S, V>, s: S, w: Generator<Point<S>>, op: Op<V>)
    requires !w.Defied? && (w.Fresh? ==> w == Fresh(Begin(s))) && (w.Suspended? ==> w.at.AtYield?)
    ensures var sent := Feeds(w, op);
      Acts(body, w, op)
      == if sent.None? then []
         else Operating(w.Fresh?, if w.Fresh? then ASend(None) else InnerOp(sent.value))
              + if Drive(WrapperBody(body), w, op).0.Suspended? then [] else [Leaves]
  {
    var sent := Feeds(w, op);
    if sent.Some? {
      var p := PointOf(w, op);
      assert WrapperBody(body)(p, sent.value) == WrapperPiece(body, p, sent.value).out;
    }
  }

  lemma SpanAppend<V>(log: seq<Act<V>>, act: Act<V>)
    requires Spans(log) && !IsLeft(log) && (act.Enters? <==> log == [])
    ensures Spans(log + [act]) && (IsLeft(log + [act]) <==> act.Leaves?)
  {
  }

  lemma OperatingSpans<V>(log: seq<Act<V>>, first: bool, op: Op<V>)
    requires Spans(log) && !IsLeft(log) && (first <==> log == [])
    ensures var done := log + Operating(first, op); Spans(done) && |done| > 0 && !IsLeft(done)
  {
    if first {
      SpanAppend(log, Enters);
      SpanAppend(log + [Enters], Operates(op));
      assert log + Operating(first, op) == log + [Enters] + [Operates(op)];
    } else {
      SpanAppend(log, Operates(op));
    }
  }

  lemma FitsAfter<S, V>(r: Generator<Point<S>>, log: seq<Act<V>>, first: bool, op: Op<V>)
    requires Spans(log) && !IsLeft(log) && (first <==> log == []) && (r.Suspended? || r.Finished?)
    ensures LogFits(r, log + (Operating(first, op) + if r.Suspended? then [] else [Leaves]))
  {
    var done := log + Operating(first, op);
    OperatingSpans(log, first, op);
    if r.Suspended? {
      assert log + (Operating(first, op) + []) == done;
    } else {
      SpanAppend(done, Leaves);
      assert log + (Operating(first, op) + [Leaves]) == done + [Leaves];
    }
  }

  lemma SpanGrows<S, V>(body: Body<S, V>, s: S, w: Generator<Point<S>>, log: seq<Act<V>>, op: Op<V>)
    requires !w.Defied? && (w.Fresh? ==> w == Fresh(Begin(s))) && (w.Suspended? ==> w.at.AtYield?)
    requires LogFits(w, log)
    ensures LogFits(Drive(WrapperBody(body), w, op).0, log + Acts(body, w, op))
  {
    StepActs(body, s, w, op);
    StepObeys(body, s, w, op);
    if Feeds(w, op).None? {
      assert log + Acts(body, w, op) == log;
    } else {
      FitsAfter(Drive(WrapperBody(body), w, op).0, log, w.Fresh?,
                if w.Fresh? then ASend(None) else InnerOp(Feeds(w, op).value));
    }
  }

  /** Main result: in every run, with whatever operations, the wrapper's body enters the trace
      before anything else, operates on the wrapped generator only inside it, and leaves it
      exactly when it ends, by returning, by an exception or by being closed. */
  lemma {:induction false} TraceSpansTheRun<S, V>(body: Body<S, V>, s: S, ops: seq<Op<V>>)
    ensures LogFits(Wrapped(body, s, ops).0, Log(body, s, ops))
    decreases |ops|
  {
    if |ops| > 0 {
      var prefix := ops[..|ops| - 1];
      TraceSpansTheRun(body, s, prefix);
      WrapperObeys(body, s, prefix);
      SpanGrows(body, s, Wrapped(body, s, prefix).0, Log(body, s, prefix), ops[|ops| - 1]);
    }
  }

  // ----- what the wrapped body is handed -----------------------------------------------

  lemma OperationsAppend<V>(log: seq<Act<V>>, act: Act<V>)
    ensures Operations(log + [act]) == Operations(log) + if act.Operates? then [act.op] else []
  {
    assert (log + [act])[..|log|] == log;
  }

  lemma {:induction false} OperationsConcat<V>(log: seq<Act<V>>, more: seq<Act<V>>)
    ensures Operations(log + more) == Operations(log) + Operations(more)
    decreases |more|
  {
    if |more| == 0 {
      assert log + more == log;
    } else {
      var n := |more| - 1;
      OperationsConcat(log, more[..n]);
      OperationsAppend(log + more[..n], more[n]);
      assert log + more == (log + more[..n]) + [more[n]];
    }
  }

  lemma OneOperation<V>(op: Op<V>)
    ensures Operations([Operates(op)]) == [op] && Operations([Operates(op), Leaves]) == [op]
    ensures Operations([Enters, Operates(op)]) == [op] && Operations([Enters, Operates(op), Leaves]) == [op]
  {
    var enters: Act<V>, operates, leaves: Act<V> := Enters, Operates(op), Leaves;
    assert [] + [operates] == [operates] && [] + [enters] == [enters];
    assert [operates] + [leaves] == [operates, leaves] && [enters] + [operates] == [enters, operates];
    assert [enters, operates] + [leaves] == [enters, operates, leaves];
    OperationsAppend([], operates);
    OperationsAppend([operates], leaves);
    OperationsAppend([], enters);
    OperationsAppend([enters], operates);
    OperationsAppend([enters, operates], leaves);
  }

  /** One step of the wrapper performs at most one operation on the wrapped generator. */
  lemma StepOperates<S, V>(body: Body<S, V>, s: S, w: Generator<Point<S>>, op: Op<V>)
    requires !w.Defied? && (w.Fresh? ==> w == Fresh(Begin(s))) && (w.Suspended? ==> w.at.AtYield?)
    ensures Operations(Acts(body, w, op))
            == if Feeds(w, op).None? then [] else if w.Fresh? then [ASend(None)] else [InnerOp(Feeds(w, op).value)]
  {
    StepActs(body, s, w, op);
    if Feeds(w, op).Some? {
      OneOperation(if w.Fresh? then ASend(None) else InnerOp(Feeds(w, op).value));
    }
  }

  /** The operations that the log records. */
  function Performed<S, V>(body: Body<S, V>, s: S, ops: seq<Op<V>>): seq<Op<V>> {
    Operations(Log(body, s, ops))
  }

  /** Where the wrapped generator stands after the operations performed on it. */
  ghost predicate SameStanding<S, V>(body: Body<S, V>, s: S, inner: Generator<S>, performed: seq<Op<V>>) {
    && (inner.Fresh? ==> performed == [])
    && (inner.Suspended? ==> Run(body, Fresh(s), performed).0 == inner)
  }

  lemma HandedAppend<S, V>(body: Body<S, V>, g: Generator<S>, ops: seq<Op<V>>, op: Op<V>)
    ensures Handed(body, g, ops + [op])
            == Handed(body, g, ops)
               + if Feeds(Run(body, g, ops).0, op).Some? then [Feeds(Run(body, g, ops).0, op).value] else []
    ensures !Run(body, g, ops).0.Defied? ==> Run(body, g, ops + [op]).0 == Drive(body, Run(body, g, ops).0, op).0
  {
    assert (ops + [op])[..|ops|] == ops;
  }

  lemma {:induction false} FreshIsStart<S, V>(body: Body<S, V>, s: S, ops: seq<Op<V>>)
    ensures Run(body, Fresh(s), ops).0.Fresh? ==> Run(body, Fresh(s), ops).0 == Fresh(s)
    decreases |ops|
  {
    if |ops| > 0 {
      FreshIsStart(body, s, ops[..|ops| - 1]);
    }
  }

  /** What the loop does to a suspended generator is what the driver wanted. */
  lemma OperationFeeds<S, V>(body: Body<S, V>, g: Generator<S>, op: Op<V>)
    requires g.Suspended? && !Swallows(body, g, op)
    ensures var o := InnerOp(Feeds(g, op).value);
      && Feeds(g, o) == Feeds(g, op) && !Drive(body, g, op).0.Fresh?
      && (Drive(body, g, op).0.Suspended? ==> Drive(body, g, o).0 == Drive(body, g, op).0)
  {
  }

  lemma StepHandsSuspended<S, V>(body: Body<S, V>, s: S, inner: Generator<S>, w: Generator<Point<S>>, op: Op<V>,
                                 performed: seq<Op<V>>)
    requires inner.Suspended? && w == Suspended(AtYield(inner))
    requires SameStanding(body, s, inner, performed) && !Swallows(body, inner, op)
    ensures var more := Operations(Acts(body, w, op));
      && SameStanding(body, s, Drive(body, inner, op).0, performed + more)
      && Handed(body, Fresh(s), performed + more) == Handed(body, Fresh(s), performed) + [Feeds(inner, op).value]
  {
    StepOperates(body, s, w, op);
    OperationFeeds(body, inner, op);
    HandedAppend(body, Fresh(s), performed, InnerOp(Feeds(inner, op).value));
  }

  lemma StepHandsFresh<S, V>(body: Body<S, V>, s: S, op: Op<V>)
    requires Feeds(Fresh(s), op).Some?
    ensures var more := Operations(Acts(body, Fresh(Begin(s)), op));
      && SameStanding(body, s, Drive(body, Fresh(s), op).0, more)
      && Handed(body, Fresh(s), more) == [Value(None)] && Feeds(Fresh(s), op) == Some(Value(None))
  {
    StepOperates(body, s, Fresh(Begin(s)), op);
    var start: Op<V> := ASend(None);
    RunOfOne(body, Fresh(s), start);
    HandedAppend(body, Fresh(s), [], start);
    assert [] + [start] == [start];
  }

  lemma StepHands<S, V>(body: Body<S, V>, s: S, inner: Generator<S>, w: Generator<Point<S>>, op: Op<V>,
                        performed: seq<Op<V>>)
    requires Matches(inner, w) && !inner.Defied? && (inner.Fresh? ==> inner == Fresh(s))
    requires SameStanding(body, s, inner, performed) && !Swallows(body, inner, op)
    ensures var more := Operations(Acts(body, w, op));
      && SameStanding(body, s, Drive(body, inner, op).0, performed + more)
      && Handed(body, Fresh(s), performed + more)
         == Handed(body, Fresh(s), performed) + if Feeds(inner, op).Some? then [Feeds(inner, op).value] else []
  {
    var more := Operations(Acts(body, w, op));
    if inner.Suspended? {
      StepHandsSuspended(body, s, inner, w, op, performed);
    } else if Feeds(inner, op).Some? {
      StepHandsFresh(body, s, op);
      assert performed + more == more;
    } else {
      assert more == [] && performed + more == performed;
    }
  }

  /** Main result: the wrapped body is handed the same values and exceptions, in order, as it
      would be without the wrapper, by the operations the wrapper performs on it. */
  lemma {:induction false} HandedTheSame<S, V>(body: Body<S, V>, s: S, ops: seq<Op<V>>)
    requires Covered(body, s, ops) && NoneSwallowed(body, s, ops)
    ensures Handed(body, Fresh(s), Performed(body, s, ops)) == Handed(body, Fresh(s), ops)
    ensures SameStanding(body, s, Run(body, Fresh(s), ops).0, Performed(body, s, ops))
    decreases |ops|
  {
    if |ops| > 0 {
      var prefix, op := ops[..|ops| - 1], ops[|ops| - 1];
      CoveredBefore(body, s, ops);
      NoneSwallowedBefore(body, s, ops);
      HandedTheSame(body, s, prefix);
      WrapperIsTransparent(body, s, prefix);
      FreshIsStart(body, s, prefix);
      var inner, w := Run(body, Fresh(s), prefix).0, Wrapped(body, s, prefix).0;
      StepHands(body, s, inner, w, op, Performed(body, s, prefix));
      OperationsConcat(Log(body, s, prefix), Acts(body, w, op));
    }
  }
}
