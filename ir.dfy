/**
 * The pieces of MLIR the importer produces, as plain values: element and tensor
 * types, SSA values, the operations appended to the entry block, and the
 * function signature.
 */
module Ir {

  /** MLIR element types; `Null` is the null `mlir::Type` that `TypeConvert` returns. */
  datatype ElemType = F16 | F32 | F64 | Integer(width: nat) | Null

  datatype TensorType =
    | Ranked(dims: seq<int>, elem: ElemType)
    | Unranked(elem: ElemType)

  /** An SSA value: an entry block argument, or result `index` of operation `op` of the block. */
  datatype Value = Arg(index: nat) | OpResult(op: nat, index: nat)

  datatype OpKind =
    | AddOp          // onnx.Add
    | MatMulOp       // onnx.MatMul
    | FullGemmOp     // onnx.FullGemm (three operands)
    | GemmOp         // onnx.Gemm (variadic)
    | GenericOp(name: string)  // an operation created by name through OperationState
    | ReturnOp       // std.return

  datatype Op = Op(kind: OpKind, operands: seq<Value>, results: seq<TensorType>)

  datatype FunctionType = FunctionType(inputs: seq<TensorType>, results: seq<TensorType>)

  datatype Func = Func(name: string, funcType: FunctionType)

  /** `v` names an existing argument or an existing result of an operation in `body`. */
  predicate WellFormed(v: Value, numArgs: nat, body: seq<Op>) {
    match v
    case Arg(i) => i < numArgs
    case OpResult(j, k) => j < |body| && k < |body[j].results|
  }

  predicate TableWellFormed(m: map<string, Value>, numArgs: nat, body: seq<Op>) {
    forall key :: key in m ==> WellFormed(m[key], numArgs, body)
  }

  /** `Value::getType()`: the declared type of an argument or of an operation result. */
  function TypeOf(v: Value, argTypes: seq<TensorType>, body: seq<Op>): TensorType
    requires WellFormed(v, |argTypes|, body)
  {
    match v
    case Arg(i) => argTypes[i]
    case OpResult(j, k) => body[j].results[k]
  }

  /** Appending operations to a block keeps every existing value valid, with the same type. */
  lemma WellFormedGrows(v: Value, argTypes: seq<TensorType>, body: seq<Op>, more: seq<Op>)
    requires WellFormed(v, |argTypes|, body)
    ensures WellFormed(v, |argTypes|, body + more)
    ensures TypeOf(v, argTypes, body + more) == TypeOf(v, argTypes, body)
  {
  }
}
