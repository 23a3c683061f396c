/**
 * The three-state result of a request and the small vocabulary for the streams of them
 * the pipeline emits.
 *
 * `Failure` is the case `core/model/.../Resource.kt` calls `Error` and the network layer calls
 * `Failure`; both names denote the same terminal, unsuccessful state.
 */
module Resources {
  import opened Wrappers
  import opened Exceptions

  datatype Resource<+T> =
    | Success(data: T)          // terminal, successful completion
    | Failure(message: string)  // terminal, unsuccessful completion (Resource.Error)
    | Loading(isLoading: bool)  // progress marker

  predicate IsTerminal<T>(r: Resource<T>) {
    r.Success? || r.Failure?
  }

  /** One collection of a cold flow: what it emitted, and the exception it ended with, if any. */
  datatype FlowRun<+T> = FlowRun(emitted: seq<T>, thrown: Option<Throwable>)

  /** How many terminal states a stream holds. */
  function CountTerminals<T>(s: seq<Resource<T>>): nat
    decreases |s|
  {
    if s == [] then 0 else (if IsTerminal(s[0]) then 1 else 0) + CountTerminals(s[1..])
  }

  lemma {:induction false} CountTerminalsAppend<T>(a: seq<Resource<T>>, b: seq<Resource<T>>)
    ensures CountTerminals(a + b) == CountTerminals(a) + CountTerminals(b)
    decreases |a|
  {
    if a == [] {
      assert a + b == b;
    } else {
      assert (a + b)[1..] == a[1..] + b;
      CountTerminalsAppend(a[1..], b);
    }
  }

  /** The stream shape of a standard request: `Loading(true)`, one terminal state, `Loading(false)`. */
  predicate Bracketed<T>(s: seq<Resource<T>>) {
    |s| == 3 && s[0] == Loading(true) && IsTerminal(s[1]) && s[2] == Loading(false)
  }

  /** A bracketed stream holds exactly one terminal state, and nothing follows `Loading(false)`. */
  lemma BracketedHasOneTerminal<T>(s: seq<Resource<T>>)
    requires Bracketed(s)
    ensures CountTerminals(s) == 1
    ensures !(exists i, j :: 0 <= i < j < |s| && IsTerminal(s[i]) && IsTerminal(s[j]))
    ensures forall i :: 0 <= i < |s| && s[i] == Loading(false) ==> i == |s| - 1
  {
    assert s == [s[0]] + [s[1]] + [s[2]];
    CountTerminalsAppend([s[0]] + [s[1]], [s[2]]);
    CountTerminalsAppend([s[0]], [s[1]]);
  }
}
