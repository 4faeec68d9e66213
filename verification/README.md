# Bounded repeat and `GENC_TRY`, modelled in Dafny

This project models two sequential pieces of the Generative Computing runtime.

1. **The `GENC_TRY` error-propagation discipline** (`status_macros.h`). It guards
   both fallible Context calls in `Repeat::ExecuteCall` (`repeat.cc`, lines 54
   and 60). A `GENC_TRY(expr)` either yields the
   value of a successful `absl::StatusOr<T>`, or nothing for an OK
   `absl::Status`. If `expr` failed, the macro makes the enclosing function
   return the failed status at once. An optional last argument, the suffix, is
   appended to the message of that status.
2. **The bounded-repeat intrinsic handler** (`Repeat` in `repeat.cc`). Its static
   parameter is a struct meant to hold `num_steps` and `body_fn`.
   - `CheckWellFormed` checks that both names occur.
   - `ExecuteCall` first registers the body through the handler's `Context`. It
     then threads the argument handle through `num_steps` calls of that body.
     Each call is guarded by `GENC_TRY`.

   The handler has the shape of the control-flow intrinsic handlers: a
   well-formedness check plus `ExecuteCall(intrinsic, optional argument, Context*)`,
   as declared for the chain handler in `basic_chain.h`.

Files:

- `status.dfy` holds two modules.
  - `AbslStatus` has status codes, `Status`, `StatusOr<T>` (whose failure
    status is never OK).
  - `StatusMacros` has the macro's helper functions, the macro as a
    `Try<T>` outcome (continue with a value, or return early), and `RunSteps`.
    `RunSteps` is a function body made of consecutive `GENC_TRY` steps.
- `computation.dfy` (module `Computation`) holds the computation values. These
  are strings, `int32`s, named structs, intrinsics and the rest. It also holds
  `Option` (for `std::optional`), the opaque `ValueRef` handles and the `Context`. The `Context` is a pair of
  fallible functions, `createValue` and `createCall`. An `Execution` is a
  handler's result together with the ordered trace of the callbacks it issued.
- `repeat.dfy` (module `Repeat`) holds the handler.
  - `ExecuteCall` is a function that reuses `RunSteps`.
  - `ExecuteCallLoop` is a method that follows the C++ loop statement by
    statement, with an `int32` counter. It is proved to compute the same result
    and trace as `ExecuteCall`.

Two facts of the code are modelled as written, even though the names alone
would suggest otherwise:

- `ExecuteCall` reads `num_steps` and `body_fn` **by position**: element 0 and
  element 1. `CheckWellFormed` checks **by name**.
- The argument is dereferenced only after the body has been registered.

The preconditions of `ExecuteCall` follow from these two facts. The static
parameter must have at least two elements. The argument must be present,
unless registering the body fails, because the C++ returns that failure before
it touches the argument. `WellFormedHasTwoElements` shows that a well-formed
parameter has two elements. `WellFormedDoesNotFixPositions` shows that
well-formedness does not make element 0 the step count. Nothing establishes that
the argument is present.

Some behaviour comes from the libraries rather than from the C++ shown:

- `int_32()` on a value holding something else returns 0, the protobuf default.
- A static parameter that is not a struct reads as a struct with no elements.

A non-positive `num_steps` runs the loop zero times, because the loop condition
is `i < num_steps` (`repeat.cc`, line 59). The argument handle is then returned
unchanged; a negative count is not rejected.

## Model

| member | source | states |
|---|---|---|
| StatusMacros.GetStatus | generative_computing/cc/runtime/status_macros.h:25-33 | The code is always kept. With no suffix, the status is returned exactly. With a suffix, a failed status gets the message "original message, one space, suffix". An OK status stays OK, because the absl constructor drops the message of an OK code. |
| StatusMacros.GetStatusOr | generative_computing/cc/runtime/status_macros.h:35-39 | For a failed `StatusOr`, the returned status is the underlying status with the suffix rule applied. It is never OK. |
| StatusMacros.TryStatus | generative_computing/cc/runtime/status_macros.h:41-65 | `GENC_TRY` on a plain status continues, with no value, exactly when the status is OK. Otherwise it returns early. The early status keeps the code and is either the same status or the suffixed one. |
| StatusMacros.TryStatusOr | generative_computing/cc/runtime/status_macros.h:43-65 | `GENC_TRY` on a `StatusOr` continues exactly when it holds a value, and yields that value. On failure it returns the underlying status, unchanged without a suffix and suffixed with one. The code is always kept. |
| StatusMacros.NestedTryFlattens | generative_computing/cc/runtime/status_macros.h:55-65 | Nested `GENC_TRY` blocks without a suffix flatten. Trying the result of a function that tried `x` and went on with `f`, then going on with `g`, equals one body that tries `x`, then tries `f` of its value, then goes on with `g`. |
| StatusMacros.TwoStepsAreNestedTries | generative_computing/cc/runtime/status_macros.h:55-65 | Two steps run in sequence equal the hand-written body `y = GENC_TRY(f(x)); z = GENC_TRY(g(y)); return z;`, with the same suffix on both. |
| StatusMacros.TryStatusMatchesStatusOr | generative_computing/cc/runtime/status_macros.h:41-65 | `GENC_TRY` on a plain status behaves as on a `StatusOr` with the same outcome: it continues when the status is OK and otherwise returns the same, possibly suffixed, status. |
| StatusMacros.TryThenReturnIsIdentity | generative_computing/cc/runtime/status_macros.h:43-65 | A function whose body is only `return GENC_TRY(expr);` returns `expr` itself: the same value on success and the same status on failure. |
| StatusMacros.GetStatusInjective | generative_computing/cc/runtime/status_macros.h:29-33 | Appending a suffix loses nothing of the code and message. Two failed statuses whose codes and messages look the same after the same suffix had the same code and message to begin with. |
| StatusMacros.NestedSuffixes | generative_computing/cc/runtime/status_macros.h:29-33 | When two nested functions each add a suffix, the code survives. The message becomes "message inner outer". |
| StatusMacros.RunSteps | generative_computing/cc/runtime/status_macros.h:55-65 | Consecutive `GENC_TRY` steps are evaluated in order. Each is fed the value of the previous one, and they stop at the first failure, so later steps are never evaluated. A failure is returned, suffixed, as the function's result. Success means every step ran and the last value is returned. |
| StatusMacros.RunStepsIsSequenced | generative_computing/cc/runtime/status_macros.h:55-65 | Running the steps with `GENC_TRY` and no suffix equals their failure-aware composition. That composition is built independently, from the last step backwards. |
| StatusMacros.FailureIsNeverRecovered | generative_computing/cc/runtime/status_macros.h:55-65 | Once a prefix of steps fails, appending more steps changes neither the result nor the evaluated inputs. A propagated error is never turned into OK. |
| Repeat.CheckWellFormed | generative_computing/cc/intrinsics/repeat.cc:31-46 | The result is OK exactly when some element is named `num_steps` and some element is named `body_fn`. If `num_steps` is missing, the result is InvalidArgument "Missing num_steps.", even when `body_fn` is also missing. If only `body_fn` is missing, it is InvalidArgument "Missing body_fn.". |
| Repeat.CheckWellFormedIgnoresOrderAndExtras | generative_computing/cc/intrinsics/repeat.cc:32-45 | Element order, repeated elements and extra elements with other names do not change the verdict. |
| Repeat.WellFormedHasTwoElements | generative_computing/cc/intrinsics/repeat.cc:32-45 | A well-formed static parameter has at least two elements. |
| Repeat.ExecuteCall | generative_computing/cc/intrinsics/repeat.cc:48-63 | `CreateValue` is called on element 1 exactly once, before any `CreateCall`. If it fails, its error is returned and nothing else is called. Otherwise there are at most `max(num_steps, 0)` calls of the body, the first fed the argument and each later one the previous result. The handler returns the last call's result, and stops early only when that call failed. When `num_steps <= 0` it issues no call and returns the argument. |
| Repeat.ExecuteCallLoop | generative_computing/cc/intrinsics/repeat.cc:51-62 | The literal loop, with an `int32` counter and a per-iteration `GENC_TRY`, returns the same result and trace as `ExecuteCall`. |
| Repeat.ExecuteCallIsIterated | generative_computing/cc/intrinsics/repeat.cc:54-62 | The result is the body applied `n` times with failure-aware composition. It is the registration error if registration failed. |
| Repeat.ExecuteCallAppliesBodyNTimes | generative_computing/cc/intrinsics/repeat.cc:57-62 | Suppose the body maps every handle `h` to `g(h)` without failing. Then the handler issues exactly `n` calls, the k-th fed `g^k(arg)`, and returns `g^n(arg)`. |
| Repeat.ExecuteCallIgnoresElementNames | generative_computing/cc/intrinsics/repeat.cc:51-55 | Execution depends only on the values of elements 0 and 1, not on their names. |
| Repeat.WellFormedDoesNotFixPositions | generative_computing/cc/intrinsics/repeat.cc:37-55 | Take a parameter that lists `body_fn` before `num_steps`, where the `body_fn` value is not an int32. It passes the check. Execution then registers the step count as the body and runs no step. |
| Repeat.FiveIncrements | generative_computing/cc/intrinsics/repeat.cc:59-62 | With `num_steps = 5` and a body taking handle k to k + 1, starting from handle 0 gives handle 5. |

## Left out

- StatusMacros.GetStatusInjective: absl status payloads are not modelled. The suffix overload builds a new status from the code and the message alone, so it drops any payloads; the no-suffix overload keeps them. Injectivity is therefore stated of the code and message only.
- The Context is modelled as two pure functions of their arguments. The executor state behind it is not modelled: handle allocation, materialization and disposal. Issuing the same call twice therefore yields the same handle in the model.
- `arg.value()` on an empty optional, and `element(i)` past the end of a repeated field, abort the process or are undefined in C++. They are preconditions of `ExecuteCall` and `ExecuteCallLoop` rather than modelled error paths.
- Handle ownership is not modelled. `ExecuteCall` does not release the intermediate handles it receives, and the inline executor that owns them is not part of this model.
- Moves (`std::move`), the GNU statement-expression mechanics of `GENC_TRY`, and the conversion of an OK status into a `StatusOr` are left out. The conversion never happens, because `GENC_TRY` only returns failed statuses.
- The other intrinsic handlers are not part of this model, and neither is the dispatch that calls `CheckWellFormed` before `ExecuteCall`. Their implementations are not shown. This covers the chain, prompt templating and model inference handlers.
- The executor stack builder, the confidential-computing interop, the JNI and Android bridges, the Python and Java runners and the authoring re-exports are left out. They are placeholders, foreign calls or host-binding glue.
- Threading and worker pools are left out. The repeat loop is strictly sequential.
