/** The slice of absl's status library that the runtime relies on: status codes,
    `Status` (a code plus a message) and `StatusOr<T>` (a value or a non-OK status). */
module AbslStatus {

  /** The canonical absl status codes. */
  datatype StatusCode =
    | Ok
    | Cancelled
    | Unknown
    | InvalidArgument
    | DeadlineExceeded
    | NotFound
    | AlreadyExists
    | PermissionDenied
    | ResourceExhausted
    | FailedPrecondition
    | Aborted
    | OutOfRange
    | Unimplemented
    | Internal
    | Unavailable
    | DataLoss
    | Unauthenticated

  /** A code and a message. absl never holds an OK status with a message: only
      `OkStatus`, the shape `MakeStatus` gives an OK code, is a meaningful OK status. */
  datatype Status = Status(code: StatusCode, message: string) {
    predicate IsOk() {
      code == Ok
    }
  }

  /** A status that reports a failure; `StatusOr` never holds an OK status. */
  type ErrorStatus = s: Status | s.code != Ok witness Status(Unknown, "")

  const OkStatus: Status := Status(Ok, "")

  /** The `absl::Status(code, message)` constructor: an OK code discards the message. */
  function MakeStatus(code: StatusCode, message: string): Status {
    if code == Ok then OkStatus else Status(code, message)
  }

  function InvalidArgumentError(message: string): ErrorStatus {
    Status(InvalidArgument, message)
  }

  /** `absl::StatusOr<T>`: either a value or the status of a failure. */
  datatype StatusOr<+T> = Success(value: T) | Failure(status: ErrorStatus) {
    predicate IsOk() {
      Success?
    }

    /** `StatusOr<T>::status()`: OK on success. */
    function ToStatus(): Status {
      if Success? then OkStatus else status
    }
  }
}

/** The `GENC_TRY` early-return discipline of generative_computing/cc/runtime/status_macros.h.

    `GENC_TRY(expr)` or `GENC_TRY(expr, suffix)` evaluates `expr`, a `Status` or a
    `StatusOr<T>`. On failure the enclosing function returns the failed status
    (with the suffix appended to its message when one is given); otherwise the
    macro yields the contained value, or nothing for a plain `Status`. */
module StatusMacros {
  import opened AbslStatus

  /** The optional last argument of `GENC_TRY`. */
  datatype Suffix = NoSuffix | Suffix(text: string)

  /** `__get_status(Status&&)` and `__get_status(Status&&, suffix)`: the status the
      enclosing function returns. */
  function GetStatus(status: Status, suffix: Suffix): (r: Status)
    ensures r.code == status.code
    ensures suffix.NoSuffix? ==> r == status
    ensures suffix.Suffix? && !status.IsOk() ==>
              && |r.message| == |status.message| + 1 + |suffix.text|
              && r.message[..|status.message|] == status.message
              && r.message[|status.message|] == ' '
              && r.message[|status.message| + 1..] == suffix.text
    ensures suffix.Suffix? && status.IsOk() ==> r == OkStatus
  {
    match suffix
    case NoSuffix => status
    case Suffix(text) => MakeStatus(status.code, status.message + " " + text)
  }

  /** `__get_status(StatusOr<T>&&, suffix...)`: the rule above applied to `status()`. */
  function GetStatusOr<T>(statusOr: StatusOr<T>, suffix: Suffix): (r: Status)
    ensures statusOr.IsOk() ==> r == OkStatus
    ensures !statusOr.IsOk() ==> r == GetStatus(statusOr.status, suffix) && !r.IsOk()
  {
    GetStatus(statusOr.ToStatus(), suffix)
  }

  /** What a `GENC_TRY` expression does: either control continues with a value
      (`__void_or_result`), or the enclosing function returns a failed status. */
  datatype Try<+T> = Continue(value: T) | ReturnEarly(status: ErrorStatus)

  /** `GENC_TRY` applied to a plain `absl::Status`: the expression is void. */
  function TryStatus(status: Status, suffix: Suffix): (t: Try<()>)
    ensures t.Continue? <==> status.IsOk()
    ensures t.ReturnEarly? ==> t.status.code == status.code
    ensures t.ReturnEarly? && suffix.NoSuffix? ==> t.status == status
    ensures t.ReturnEarly? && suffix.Suffix? ==>
              t.status.message == status.message + " " + suffix.text
  {
    if status.IsOk() then Continue(()) else ReturnEarly(GetStatus(status, suffix))
  }

  /** `GENC_TRY` applied to an `absl::StatusOr<T>`: the expression has type `T`. */
  function TryStatusOr<T>(statusOr: StatusOr<T>, suffix: Suffix): (t: Try<T>)
    ensures t.Continue? <==> statusOr.IsOk()
    ensures t.Continue? ==> t.value == statusOr.value
    ensures t.ReturnEarly? ==> t.status.code == statusOr.status.code
    ensures t.ReturnEarly? && suffix.NoSuffix? ==> t.status == statusOr.status
    ensures t.ReturnEarly? && suffix.Suffix? ==>
              t.status.message == statusOr.status.message + " " + suffix.text
  {
    if statusOr.IsOk() then Continue(statusOr.value) else ReturnEarly(GetStatusOr(statusOr, suffix))
  }

  /** The rest of an enclosing function returning `StatusOr<U>` after one
      `GENC_TRY`: it runs only when the macro let control continue. */
  function AndThen<T, U>(t: Try<T>, rest: T -> StatusOr<U>): StatusOr<U> {
    match t
    case Continue(v) => rest(v)
    case ReturnEarly(status) => Failure(status)
  }

  /** The void form agrees with the value form: trying a plain status is trying a
      `StatusOr<()>` that holds the same outcome. */
  lemma TryStatusMatchesStatusOr(status: Status, suffix: Suffix)
    ensures TryStatus(status, suffix)
         == TryStatusOr(if status.IsOk() then Success(()) else Failure(status), suffix)
  {
  }

  /** A function that only returns `GENC_TRY(expr)` returns `expr` itself: the
      value on success, the very same status on failure. */
  lemma TryThenReturnIsIdentity<T>(statusOr: StatusOr<T>)
    ensures AndThen(TryStatusOr(statusOr, NoSuffix), (v: T) => Success(v)) == statusOr
  {
  }

  /** Nested `GENC_TRY` blocks flatten: trying the result of a function that itself
      tried `statusOr` and went on with `f` is the same as one body that tries
      `statusOr`, then tries `f` of its value, then goes on with `g`. */
  lemma NestedTryFlattens<T, U, V>(statusOr: StatusOr<T>, f: T -> StatusOr<U>, g: U -> StatusOr<V>)
    ensures AndThen(TryStatusOr(AndThen(TryStatusOr(statusOr, NoSuffix), f), NoSuffix), g)
         == AndThen(TryStatusOr(statusOr, NoSuffix), (v: T) => AndThen(TryStatusOr(f(v), NoSuffix), g))
  {
  }

  /** Attaching a suffix loses nothing of the code and message: two failed statuses that read the same
      after annotation with one suffix were the same status. */
  lemma GetStatusInjective(a: Status, b: Status, text: string)
    requires !a.IsOk() && !b.IsOk()
    requires GetStatus(a, Suffix(text)) == GetStatus(b, Suffix(text))
    ensures a == b
  {
  }

  /** Nested functions each adding a suffix: the code survives and the suffixes
      accumulate in call order, innermost first. */
  lemma NestedSuffixes(status: Status, inner: string, outer: string)
    requires !status.IsOk()
    ensures GetStatus(GetStatus(status, Suffix(inner)), Suffix(outer))
         == Status(status.code, status.message + " " + inner + " " + outer)
  {
  }

  /** The result of running `GENC_TRY` steps one after another: what the enclosing
      function returns, and the input handed to each step that was evaluated. */
  datatype Run<T> = Run(result: StatusOr<T>, inputs: seq<T>)

  /** `inputs` start at `x` and each is the value the step before it produced. */
  ghost predicate Threaded<T>(steps: seq<T -> StatusOr<T>>, x: T, inputs: seq<T>)
    requires |inputs| <= |steps|
  {
    && (|inputs| > 0 ==> inputs[0] == x)
    && forall i | 0 <= i < |inputs| - 1 :: steps[i](inputs[i]) == Success(inputs[i + 1])
  }

  /** A function body made of `state = GENC_TRY(steps[i](state), suffix)` for each
      step in order, returning the final state. */
  function RunSteps<T>(steps: seq<T -> StatusOr<T>>, x: T, suffix: Suffix): (r: Run<T>)
    ensures |r.inputs| <= |steps|
    ensures Threaded(steps, x, r.inputs)
    ensures r.result.Success? ==> |r.inputs| == |steps|
    ensures r.result.Success? && |steps| == 0 ==> r.result.value == x
    ensures r.result.Success? && |steps| > 0 ==>
              steps[|steps| - 1](r.inputs[|steps| - 1]) == r.result
    ensures r.result.Failure? ==>
              && |r.inputs| > 0
              && steps[|r.inputs| - 1](r.inputs[|r.inputs| - 1]).Failure?
              && r.result.status == GetStatus(steps[|r.inputs| - 1](r.inputs[|r.inputs| - 1]).status, suffix)
    decreases |steps|
  {
    if |steps| == 0 then
      Run(Success(x), [])
    else
      match TryStatusOr(steps[0](x), suffix)
      case ReturnEarly(status) => Run(Failure(status), [x])
      case Continue(y) =>
        var rest := RunSteps(steps[1..], y, suffix);
        Run(rest.result, [x] + rest.inputs)
  }

  /** Two steps run by `RunSteps` are the hand-written body
      `y = GENC_TRY(f(x), suffix); z = GENC_TRY(g(y), suffix); return z;`. */
  lemma TwoStepsAreNestedTries<T>(f: T -> StatusOr<T>, g: T -> StatusOr<T>, x: T, suffix: Suffix)
    ensures RunSteps([f, g], x, suffix).result
         == AndThen(TryStatusOr(f(x), suffix), (y: T) => AndThen(TryStatusOr(g(y), suffix), (z: T) => Success(z)))
  {
  }

  /** Reference semantics of a step sequence without suffix: the composition of
      the steps, built from the last step backwards. */
  function Sequenced<T>(steps: seq<T -> StatusOr<T>>, x: T): StatusOr<T>
    decreases |steps|
  {
    if |steps| == 0 then
      Success(x)
    else
      match Sequenced(steps[..|steps| - 1], x)
      case Success(y) => steps[|steps| - 1](y)
      case Failure(status) => Failure(status)
  }

  /** Unfolding the composition from the first step instead of the last. */
  lemma {:induction false} SequencedFront<T>(steps: seq<T -> StatusOr<T>>, x: T)
    requires |steps| > 0
    ensures Sequenced(steps, x) == match steps[0](x)
                                   case Success(y) => Sequenced(steps[1..], y)
                                   case Failure(status) => Failure(status)
    decreases |steps|
  {
    if |steps| > 1 {
      var init := steps[..|steps| - 1];
      SequencedFront(init, x);
      assert init[1..] == steps[1..][..|steps[1..]| - 1];
      match steps[0](x)
      case Success(y) => {
        assert Sequenced(init, x) == Sequenced(init[1..], y);
      }
      case Failure(status) => {}
    }
  }

  /** Running the steps with `GENC_TRY` and no suffix computes their composition. */
  lemma {:induction false} RunStepsIsSequenced<T>(steps: seq<T -> StatusOr<T>>, x: T)
    ensures RunSteps(steps, x, NoSuffix).result == Sequenced(steps, x)
    decreases |steps|
  {
    if |steps| > 0 {
      SequencedFront(steps, x);
      match steps[0](x)
      case Success(y) => RunStepsIsSequenced(steps[1..], y);
      case Failure(_) => {}
    }
  }

  /** Once a step fails, no later step can change the outcome: every sequence
      extending a failing prefix fails with the same status. */
  lemma {:induction false} FailureIsNeverRecovered<T>(prefix: seq<T -> StatusOr<T>>, later: seq<T -> StatusOr<T>>, x: T, suffix: Suffix)
    requires RunSteps(prefix, x, suffix).result.Failure?
    ensures RunSteps(prefix + later, x, suffix) == RunSteps(prefix, x, suffix)
    decreases |prefix|
  {
    match prefix[0](x)
    case Failure(_) => {}
    case Success(y) => {
      assert (prefix + later)[1..] == prefix[1..] + later;
      FailureIsNeverRecovered(prefix[1..], later, y, suffix);
    }
  }
}
