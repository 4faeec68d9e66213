/** The values an executor exchanges (the `v0::Value` and `v0::Intrinsic`
    messages), the handles it issues for them, and the `Context` callback surface
    an intrinsic handler uses to call back into its executor. */
module Computation {
  import opened AbslStatus

  /** The range of a C++ `int` / protobuf `int32`. */
  newtype int32 = x: int | -0x8000_0000 <= x < 0x8000_0000

  /** A computation value; `Unset` is a message whose `oneof` holds nothing. */
  datatype Value =
    | Unset
    | Str(str: string)
    | Int32(int32Value: int32)
    | Struct(elements: seq<NamedValue>)
    | IntrinsicValue(intrinsic: Intrinsic)
    | ModelReference(modelUri: string)
    | Lambda(parameterName: string, result: Value)
    | Call(fn: Value, argument: Value)

  /** One element of a `Struct`: a name and a value. */
  datatype NamedValue = NamedValue(name: string, value: Value)

  /** An intrinsic: its identifier and the static parameter fixed at construction. */
  datatype Intrinsic = Intrinsic(uri: string, staticParameter: Value)

  /** The protobuf accessor `int_32()`: the default 0 when the value holds anything else. */
  function Int32OrZero(v: Value): int32 {
    if v.Int32? then v.int32Value else 0
  }

  /** `static_parameter().struct_().element()`: the default empty struct when the
      static parameter is not a struct. */
  function StaticElements(intrinsic: Intrinsic): seq<NamedValue> {
    if intrinsic.staticParameter.Struct? then intrinsic.staticParameter.elements else []
  }

  /** `std::optional<T>`. */
  datatype Option<+T> = None | Some(value: T)

  /** An opaque handle for a value registered in an executor (`ValueRef`). */
  datatype ValueRef = ValueRef(id: nat)

  /** The callbacks a handler may issue: register a value, or call a function on
      an argument. Each may fail. */
  datatype Context = Context(
    createValue: Value -> StatusOr<ValueRef>,
    createCall: (ValueRef, ValueRef) -> StatusOr<ValueRef>)

  /** One callback a handler issued, recorded with its arguments. */
  datatype ContextCall =
    | CreateValueCall(value: Value)
    | CreateCallCall(fn: ValueRef, arg: ValueRef)

  /** What a handler returned, and the callbacks it issued, in order. */
  datatype Execution = Execution(result: StatusOr<ValueRef>, calls: seq<ContextCall>)
}
