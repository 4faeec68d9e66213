/** The bounded-repeat intrinsic handler (generative_computing/cc/intrinsics/repeat.cc).

    Its static parameter is a struct meant to hold `num_steps` and `body_fn`.
    `CheckWellFormed` looks for the two names; `ExecuteCall` registers the body
    once and threads the argument through `num_steps` calls of it, each
    `GENC_TRY`-guarded, so the first failure is what the handler returns. */
module Repeat {
  import opened AbslStatus
  import opened StatusMacros
  import opened Computation

  const NumStepsName: string := "num_steps"
  const BodyFnName: string := "body_fn"

  /** Some static-parameter element carries `name`. */
  ghost predicate HasElementNamed(intrinsic: Intrinsic, name: string) {
    exists i | 0 <= i < |StaticElements(intrinsic)| :: StaticElements(intrinsic)[i].name == name
  }

  /** `Repeat::CheckWellFormed`: both names must occur among the element names;
      `num_steps` is checked first. */
  function CheckWellFormed(intrinsic: Intrinsic): (status: Status)
    ensures status.IsOk() <==> HasElementNamed(intrinsic, NumStepsName) && HasElementNamed(intrinsic, BodyFnName)
    ensures status.IsOk() ==> status == OkStatus
    ensures !HasElementNamed(intrinsic, NumStepsName) ==>
              status == Status(InvalidArgument, "Missing num_steps.")
    ensures HasElementNamed(intrinsic, NumStepsName) && !HasElementNamed(intrinsic, BodyFnName) ==>
              status == Status(InvalidArgument, "Missing body_fn.")
  {
    var names := set element | element in StaticElements(intrinsic) :: element.name;
    if NumStepsName !in names then
      InvalidArgumentError("Missing num_steps.")
    else if BodyFnName !in names then
      InvalidArgumentError("Missing body_fn.")
    else
      OkStatus
  }

  /** The verdict depends on the set of element names only: reordering or
      repeating elements, or adding elements with other names, leaves it unchanged. */
  lemma CheckWellFormedIgnoresOrderAndExtras(a: Intrinsic, b: Intrinsic)
    requires forall e | e in StaticElements(a) :: e in StaticElements(b)
    requires forall e | e in StaticElements(b) && e !in StaticElements(a) ::
               e.name != NumStepsName && e.name != BodyFnName
    ensures CheckWellFormed(a) == CheckWellFormed(b)
  {
  }

  /** A well-formed static parameter has at least two elements, so reading
      elements 0 and 1 stays in range; the argument may still be absent. */
  lemma WellFormedHasTwoElements(intrinsic: Intrinsic)
    requires CheckWellFormed(intrinsic).IsOk()
    ensures |StaticElements(intrinsic)| >= 2
  {
  }

  /** `num_steps` as `ExecuteCall` reads it: element 0, whatever its name. */
  function NumSteps(intrinsic: Intrinsic): int32
    requires |StaticElements(intrinsic)| >= 1
  {
    Int32OrZero(StaticElements(intrinsic)[0].value)
  }

  /** `body_fn` as `ExecuteCall` reads it: element 1, whatever its name. */
  function BodyFnValue(intrinsic: Intrinsic): Value
    requires |StaticElements(intrinsic)| >= 2
  {
    StaticElements(intrinsic)[1].value
  }

  /** How often `for (int i = 0; i < num_steps; i++)` runs its body. */
  function LoopCount(numSteps: int32): nat {
    if numSteps <= 0 then 0 else numSteps as nat
  }

  /** One loop step: call the body on the current state. */
  function CallBody(context: Context, bodyFn: ValueRef): ValueRef -> StatusOr<ValueRef> {
    state => context.createCall(bodyFn, state)
  }

  /** The loop unrolled: `n` identical `GENC_TRY`-guarded steps. */
  function BodySteps(context: Context, bodyFn: ValueRef, n: nat): seq<ValueRef -> StatusOr<ValueRef>> {
    seq(n, _ => CallBody(context, bodyFn))
  }

  /** The `CreateCall` callbacks for the given states, in order. */
  function CallsOn(bodyFn: ValueRef, states: seq<ValueRef>): seq<ContextCall> {
    seq(|states|, i requires 0 <= i < |states| => CreateCallCall(bodyFn, states[i]))
  }

  /** `calls` are calls of `bodyFn` only, at most `n` of them; the first is fed
      `start` and each later one the result of the call before it; `result` is
      what the last call returned (`start` when there was none); and fewer than
      `n` calls happen only when the last of them failed. */
  ghost predicate FoldsBody(context: Context, bodyFn: ValueRef, start: ValueRef, n: nat,
                            calls: seq<ContextCall>, result: StatusOr<ValueRef>)
  {
    && |calls| <= n
    && (forall i | 0 <= i < |calls| :: calls[i].CreateCallCall? && calls[i].fn == bodyFn)
    && (|calls| > 0 ==> calls[0].arg == start)
    && (forall i | 0 <= i < |calls| - 1 ::
          context.createCall(bodyFn, calls[i].arg) == Success(calls[i + 1].arg))
    && result == (if |calls| == 0 then Success(start) else context.createCall(bodyFn, calls[|calls| - 1].arg))
    && (result.Success? ==> |calls| == n)
  }

  /** `Repeat::ExecuteCall`. It reads `num_steps` and `body_fn` by position, so it
      needs two elements; it dereferences the argument only after `CreateValue`
      succeeded, so the argument must be present unless that call fails. */
  function ExecuteCall(intrinsic: Intrinsic, arg: Option<ValueRef>, context: Context): (e: Execution)
    requires |StaticElements(intrinsic)| >= 2
    requires arg.Some? || context.createValue(BodyFnValue(intrinsic)).Failure?
    ensures |e.calls| >= 1 && e.calls[0] == CreateValueCall(BodyFnValue(intrinsic))
    ensures context.createValue(BodyFnValue(intrinsic)).Failure? ==>
              e == Execution(context.createValue(BodyFnValue(intrinsic)), [CreateValueCall(BodyFnValue(intrinsic))])
    ensures context.createValue(BodyFnValue(intrinsic)).Success? ==>
              FoldsBody(context, context.createValue(BodyFnValue(intrinsic)).value, arg.value,
                        LoopCount(NumSteps(intrinsic)), e.calls[1..], e.result)
    ensures context.createValue(BodyFnValue(intrinsic)).Success? && NumSteps(intrinsic) <= 0 ==>
              e == Execution(Success(arg.value), [CreateValueCall(BodyFnValue(intrinsic))])
  {
    var bodyFnValue := BodyFnValue(intrinsic);
    match TryStatusOr(context.createValue(bodyFnValue), NoSuffix)
    case ReturnEarly(status) =>
      Execution(Failure(status), [CreateValueCall(bodyFnValue)])
    case Continue(bodyFn) =>
      var steps := BodySteps(context, bodyFn, LoopCount(NumSteps(intrinsic)));
      var run := RunSteps(steps, arg.value, NoSuffix);
      assert forall i | 0 <= i < |steps| :: steps[i] == CallBody(context, bodyFn);
      var e := Execution(run.result, [CreateValueCall(bodyFnValue)] + CallsOn(bodyFn, run.inputs));
      assert e.calls[1..] == CallsOn(bodyFn, run.inputs);
      e
  }

  /** `ExecuteCall` as the C++ loop runs it: `state = GENC_TRY(CreateCall(body_fn, state))`
      while an `int` counter climbs from 0 to `num_steps`. */
  method ExecuteCallLoop(intrinsic: Intrinsic, arg: Option<ValueRef>, context: Context)
    returns (result: StatusOr<ValueRef>, calls: seq<ContextCall>)
    requires |StaticElements(intrinsic)| >= 2
    requires arg.Some? || context.createValue(BodyFnValue(intrinsic)).Failure?
    ensures Execution(result, calls) == ExecuteCall(intrinsic, arg, context)
  {
    var numSteps := NumSteps(intrinsic);
    var bodyFnValue := BodyFnValue(intrinsic);
    calls := [CreateValueCall(bodyFnValue)];
    var bodyFn: ValueRef;
    match TryStatusOr(context.createValue(bodyFnValue), NoSuffix) {
      case ReturnEarly(status) =>
        return Failure(status), calls;
      case Continue(created) =>
        bodyFn := created;
    }
    var state := arg.value;
    ghost var steps := BodySteps(context, bodyFn, LoopCount(numSteps));
    ghost var target := ExecuteCall(intrinsic, arg, context);
    assert steps[0..] == steps;
    var i: int32 := 0;
    while i < numSteps
      invariant 0 <= i as int <= LoopCount(numSteps)
      invariant var run := RunSteps(steps[i..], state, NoSuffix);
                target == Execution(run.result, calls + CallsOn(bodyFn, run.inputs))
    {
      assert steps[i..][1..] == steps[i + 1..];
      LoopStep(context, bodyFn, steps[i..], state, calls);
      calls := calls + [CreateCallCall(bodyFn, state)];
      match TryStatusOr(context.createCall(bodyFn, state), NoSuffix) {
        case ReturnEarly(status) =>
          return Failure(status), calls;
        case Continue(next) =>
          state := next;
      }
      i := i + 1;
    }
    assert steps[i..] == [];
    return Success(state), calls;
  }

  /** One pass of the loop: the call on `state` either fails, ending the run with
      its status, or its result is where the remaining steps start. */
  lemma LoopStep(context: Context, bodyFn: ValueRef, steps: seq<ValueRef -> StatusOr<ValueRef>>,
                                    state: ValueRef, calls: seq<ContextCall>)
    requires |steps| > 0 && steps[0] == CallBody(context, bodyFn)
    ensures var run := RunSteps(steps, state, NoSuffix);
            match context.createCall(bodyFn, state)
            case Failure(status) =>
              && run.result == Failure(status)
              && calls + CallsOn(bodyFn, run.inputs) == calls + [CreateCallCall(bodyFn, state)]
            case Success(next) =>
              var after := RunSteps(steps[1..], next, NoSuffix);
              && run.result == after.result
              && calls + CallsOn(bodyFn, run.inputs)
                 == (calls + [CreateCallCall(bodyFn, state)]) + CallsOn(bodyFn, after.inputs)
  {
    match context.createCall(bodyFn, state)
    case Failure(status) =>
      assert CallsOn(bodyFn, [state]) == [CreateCallCall(bodyFn, state)];
    case Success(next) =>
      var after := RunSteps(steps[1..], next, NoSuffix);
      assert CallsOn(bodyFn, [state] + after.inputs) == [CreateCallCall(bodyFn, state)] + CallsOn(bodyFn, after.inputs);
  }

  /** `f` applied `n` times, stopping at the first failure. */
  function Iterated<T>(f: T -> StatusOr<T>, n: nat, x: T): StatusOr<T> {
    if n == 0 then
      Success(x)
    else
      match Iterated(f, n - 1, x)
      case Success(y) => f(y)
      case Failure(status) => Failure(status)
  }

  /** `n` copies of one step, run in sequence, apply it `n` times. */
  lemma {:induction false} SequencedCopies<T>(f: T -> StatusOr<T>, n: nat, x: T)
    ensures Sequenced(seq(n, _ => f), x) == Iterated(f, n, x)
  {
    if n > 0 {
      var copies := seq(n, _ => f);
      assert copies[..n - 1] == seq(n - 1, _ => f);
      SequencedCopies(f, n - 1, x);
    }
  }

  /** Repeat computes the n-fold application of its body, failure-aware:
      `num_steps = n` yields `body(...body(arg)...)` with `n` applications, or the
      first error met on the way, or the error of registering the body. */
  lemma {:induction false} ExecuteCallIsIterated(intrinsic: Intrinsic, arg: Option<ValueRef>, context: Context)
    requires |StaticElements(intrinsic)| >= 2
    requires arg.Some? || context.createValue(BodyFnValue(intrinsic)).Failure?
    ensures ExecuteCall(intrinsic, arg, context).result
         == match context.createValue(BodyFnValue(intrinsic))
            case Failure(status) => Failure(status)
            case Success(bodyFn) => Iterated(CallBody(context, bodyFn), LoopCount(NumSteps(intrinsic)), arg.value)
  {
    match context.createValue(BodyFnValue(intrinsic))
    case Failure(_) =>
    case Success(bodyFn) =>
      var n := LoopCount(NumSteps(intrinsic));
      var steps := BodySteps(context, bodyFn, n);
      RunStepsIsSequenced(steps, arg.value);
      SequencedCopies(CallBody(context, bodyFn), n, arg.value);
  }

  /** `g` applied `n` times. */
  function Apply<T>(g: T -> T, n: nat, x: T): T {
    if n == 0 then x else g(Apply(g, n - 1, x))
  }

  /** Under a folding trace whose calls all succeed as `g`, call `k` is fed `g^k(start)`. */
  lemma {:induction false} FoldedCallArguments(context: Context, bodyFn: ValueRef, g: ValueRef -> ValueRef,
                                               start: ValueRef, n: nat, calls: seq<ContextCall>,
                                               result: StatusOr<ValueRef>, k: nat)
    requires forall state :: context.createCall(bodyFn, state) == Success(g(state))
    requires FoldsBody(context, bodyFn, start, n, calls, result)
    requires k < |calls|
    ensures calls[k] == CreateCallCall(bodyFn, Apply(g, k, start))
  {
    if k > 0 {
      FoldedCallArguments(context, bodyFn, g, start, n, calls, result, k - 1);
      assert context.createCall(bodyFn, calls[k - 1].arg) == Success(calls[k].arg);
    }
  }

  /** When the body never fails, Repeat with `num_steps = n` issues exactly `n`
      calls, the k-th fed `g^k(arg)`, and returns `g^n(arg)`. */
  lemma {:induction false} ExecuteCallAppliesBodyNTimes(intrinsic: Intrinsic, arg: ValueRef, context: Context,
                                                        bodyFn: ValueRef, g: ValueRef -> ValueRef)
    requires |StaticElements(intrinsic)| >= 2
    requires context.createValue(BodyFnValue(intrinsic)) == Success(bodyFn)
    requires forall state :: context.createCall(bodyFn, state) == Success(g(state))
    ensures ExecuteCall(intrinsic, Some(arg), context).result == Success(Apply(g, LoopCount(NumSteps(intrinsic)), arg))
    ensures ExecuteCall(intrinsic, Some(arg), context).calls
         == [CreateValueCall(BodyFnValue(intrinsic))]
            + seq(LoopCount(NumSteps(intrinsic)), k requires 0 <= k => CreateCallCall(bodyFn, Apply(g, k, arg)))
  {
    var e := ExecuteCall(intrinsic, Some(arg), context);
    var n := LoopCount(NumSteps(intrinsic));
    var calls := e.calls[1..];
    assert FoldsBody(context, bodyFn, arg, n, calls, e.result);
    forall k | 0 <= k < |calls|
      ensures calls[k] == CreateCallCall(bodyFn, Apply(g, k, arg))
    {
      FoldedCallArguments(context, bodyFn, g, arg, n, calls, e.result, k);
    }
    if |calls| > 0 {
      assert e.result == Success(g(Apply(g, |calls| - 1, arg)));
    }
    assert |calls| == n;
    assert e.calls == [e.calls[0]] + calls;
  }

  /** Elements are read by position: two static parameters agreeing on the values
      of elements 0 and 1 execute identically, whatever the element names. */
  lemma ExecuteCallIgnoresElementNames(a: Intrinsic, b: Intrinsic, arg: Option<ValueRef>, context: Context)
    requires |StaticElements(a)| >= 2 && |StaticElements(b)| >= 2
    requires StaticElements(a)[0].value == StaticElements(b)[0].value
    requires StaticElements(a)[1].value == StaticElements(b)[1].value
    requires arg.Some? || context.createValue(BodyFnValue(a)).Failure?
    ensures ExecuteCall(a, arg, context) == ExecuteCall(b, arg, context)
  {
  }

  /** A well-formed static parameter listing `body_fn` before `num_steps` passes
      the check, yet execution registers the step count as the body and runs no
      step when the body value is not an integer. */
  lemma WellFormedDoesNotFixPositions(uri: string, bodyFnValue: Value, steps: int32, arg: ValueRef, context: Context)
    requires !bodyFnValue.Int32?
    ensures var intrinsic := Intrinsic(uri, Struct([NamedValue(BodyFnName, bodyFnValue), NamedValue(NumStepsName, Int32(steps))]));
            && CheckWellFormed(intrinsic).IsOk()
            && ExecuteCall(intrinsic, Some(arg), context).calls == [CreateValueCall(Int32(steps))]
  {
  }

  /** Five steps of a body that maps handle k to handle k + 1, from handle 0, end at handle 5. */
  lemma FiveIncrements(uri: string, bodyFnValue: Value, bodyFn: ValueRef, context: Context)
    requires context.createValue(bodyFnValue) == Success(bodyFn)
    requires forall state :: context.createCall(bodyFn, state) == Success(ValueRef(state.id + 1))
    ensures var intrinsic := Intrinsic(uri, Struct([NamedValue(NumStepsName, Int32(5)), NamedValue(BodyFnName, bodyFnValue)]));
            ExecuteCall(intrinsic, Some(ValueRef(0)), context).result == Success(ValueRef(5))
  {
    var intrinsic := Intrinsic(uri, Struct([NamedValue(NumStepsName, Int32(5)), NamedValue(BodyFnName, bodyFnValue)]));
    var g := (state: ValueRef) => ValueRef(state.id + 1);
    ExecuteCallAppliesBodyNTimes(intrinsic, ValueRef(0), context, bodyFn, g);
    assert Apply(g, 5, ValueRef(0)) == ValueRef(5);
  }
}
