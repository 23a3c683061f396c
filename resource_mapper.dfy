/** `Resource.map` and `Flow<T>.asResource()` from the model layer. */
module ResourceMapper {
  import opened Wrappers
  import opened Exceptions
  import opened Resources

  /** `Resource<T>.map(transform)`: only a success payload is transformed. */
  function Map<T, U>(r: Resource<T>, transform: T -> U): (m: Resource<U>)
    ensures m.Success? <==> r.Success?
    ensures m.Loading? <==> r.Loading?
    ensures IsTerminal(m) <==> IsTerminal(r)
  {
    match r
    case Success(data) => Success(transform(data))
    case Failure(message) => Failure(message)
    case Loading(isLoading) => Loading(isLoading)
  }

  /** Error and Loading pass through: the result does not depend on the transform at all. */
  lemma MapIgnoresTransform<T, U>(r: Resource<T>, f: T -> U, g: T -> U)
    requires !r.Success?
    ensures Map(r, f) == Map(r, g)
    ensures r.Failure? ==> Map(r, f) == Failure(r.message)
    ensures r.Loading? ==> Map(r, f) == Loading(r.isLoading)
  {
  }

  lemma MapSuccess<T, U>(d: T, f: T -> U)
    ensures Map(Success(d), f) == Success(f(d))
  {
  }

  lemma MapIdentity<T>(r: Resource<T>)
    ensures Map(r, x => x) == r
  {
  }

  lemma MapCompose<T, U, V>(r: Resource<T>, f: T -> U, g: U -> V)
    ensures Map(Map(r, f), g) == Map(r, x => g(f(x)))
  {
  }

  /** Every upstream value wrapped in `Success`, in order. */
  function Successes<T>(xs: seq<T>): (s: seq<Resource<T>>)
    ensures |s| == |xs|
    ensures forall i :: 0 <= i < |xs| ==> s[i] == Success(xs[i])
  {
    seq(|xs|, i requires 0 <= i < |xs| => Success(xs[i]))
  }

  lemma {:induction false} SuccessesAreTerminal<T>(xs: seq<T>)
    ensures CountTerminals(Successes(xs)) == |xs|
    decreases |xs|
  {
    if xs != [] {
      assert Successes(xs)[1..] == Successes(xs[1..]);
      SuccessesAreTerminal(xs[1..]);
    }
  }

  /**
   * `Flow<T>.asResource()`, as the operators are chained: `map` to Success, `onStart`
   * Loading(true), `onCompletion` Loading(false), then `catch` Error(message).
   * Because `onCompletion` sits upstream of `catch`, its emission on an exceptional completion
   * goes to a collector that rethrows the exception, so Loading(false) is emitted only when the
   * upstream completes normally; otherwise `catch` emits the failure last.
   * This is the intended behaviour, with a message-less exception giving `Error("")`;
   * `AsResourceAsWritten` is what the code does for such an exception.
   */
  function AsResource<T>(upstream: FlowRun<T>): (s: seq<Resource<T>>)
    ensures |s| == |upstream.emitted| + 2 && s[0] == Loading(true)
    ensures forall i :: 0 <= i < |upstream.emitted| ==> s[i + 1] == Success(upstream.emitted[i])
    ensures upstream.thrown.None? ==> s[|s| - 1] == Loading(false)
    ensures upstream.thrown.Some? ==> s[|s| - 1] == Failure(MessageOrEmpty(upstream.thrown.value))
  {
    [Loading(true)] + Successes(upstream.emitted)
      + match upstream.thrown
        case None => [Loading(false)]
        case Some(e) => [Failure(MessageOrEmpty(e))]
  }

  /** Loading(false) appears at most once, as the last element, and only on normal completion. */
  lemma AsResourceLoadingFalseOnlyLast<T>(upstream: FlowRun<T>)
    ensures var s := AsResource(upstream);
      forall i :: 0 <= i < |s| && s[i] == Loading(false) ==> i == |s| - 1 && upstream.thrown.None?
  {
  }

  /**
   * `Flow<T>.asResource()` exactly as written. `Resource.Error` takes a non-null `String`, while
   * `localizedMessage` is a platform type, so for an exception without a message the argument's
   * null check throws a NullPointerException inside `catch`: the stream then ends exceptionally
   * instead of emitting Error. That NullPointerException is `Other(None)` here; its text is not kept.
   */
  function AsResourceAsWritten<T>(upstream: FlowRun<T>): (run: FlowRun<Resource<T>>)
    ensures upstream.thrown.None? || upstream.thrown.value.message.Some? ==> run.thrown.None?
    ensures upstream.thrown.Some? && upstream.thrown.value.message.None? ==> run.thrown == Some(Other(None))
  {
    match upstream.thrown
    case None => FlowRun([Loading(true)] + Successes(upstream.emitted) + [Loading(false)], None)
    case Some(e) =>
      match e.message
      case Some(m) => FlowRun([Loading(true)] + Successes(upstream.emitted) + [Failure(m)], None)
      case None => FlowRun([Loading(true)] + Successes(upstream.emitted), Some(Other(None)))
  }

  /** Whenever the upstream completes or throws with a message, the code does what AsResource states. */
  lemma AsWrittenAgreesWithMessage<T>(upstream: FlowRun<T>)
    requires upstream.thrown.None? || upstream.thrown.value.message.Some?
    ensures AsResourceAsWritten(upstream) == FlowRun(AsResource(upstream), None)
  {
  }

  /**
   * The discrepancy: an upstream exception without a message yields no Error at all; the
   * collector sees a NullPointerException after the relayed values, where the intended stream
   * ends with `Error("")`.
   */
  lemma AsWrittenLosesMessagelessError<T>(upstream: FlowRun<T>)
    requires upstream.thrown.Some? && upstream.thrown.value.message.None?
    ensures AsResourceAsWritten(upstream).thrown.Some?
    ensures CountTerminals(AsResourceAsWritten(upstream).emitted) == |upstream.emitted|
    ensures AsResource(upstream)[|AsResource(upstream)| - 1] == Failure("")
  {
    CountTerminalsAppend([Loading(true)], Successes(upstream.emitted));
    SuccessesAreTerminal(upstream.emitted);
  }

  /** A concrete case: `flow { throw IOException() }.asResource()`. */
  lemma MessagelessIOExceptionExample()
    ensures AsResourceAsWritten<int>(FlowRun([], Some(IO(None)))) == FlowRun([Loading(true)], Some(Other(None)))
    ensures AsResource<int>(FlowRun([], Some(IO(None)))) == [Loading(true), Failure("")]
  {
    assert Successes<int>([]) == [];
  }

  /** One terminal state per upstream value, plus one for an upstream exception. */
  lemma AsResourceTerminals<T>(upstream: FlowRun<T>)
    ensures CountTerminals(AsResource(upstream))
         == |upstream.emitted| + (if upstream.thrown.Some? then 1 else 0)
  {
    var tail := match upstream.thrown
      case None => [Loading(false)]
      case Some(e) => [Failure(MessageOrEmpty(e))];
    var s := AsResource(upstream);
    assert s == [Loading(true)] + Successes(upstream.emitted) + tail;
    CountTerminalsAppend([Loading(true)] + Successes(upstream.emitted), tail);
    CountTerminalsAppend([Loading(true)], Successes(upstream.emitted));
    SuccessesAreTerminal(upstream.emitted);
  }
}
