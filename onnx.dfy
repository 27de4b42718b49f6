/** The in-memory ONNX graph the importer reads (already parsed from protobuf). */
module Onnx {

  /** `onnx::TensorProto_DataType`, the codes the importer's switch enumerates. */
  datatype DataType =
    | Undefined | Float | Uint8 | Int8 | Uint16 | Int16 | Int32 | Int64
    | String | Bool | Float16 | Double | Uint32 | Uint64 | Complex64 | Complex128

  /**
   * A `ValueInfoProto` of a tensor: its name, element type and declared dims.
   * A dim is its `dim_value()`; 0 stands for a dim that has no value (unset or symbolic).
   */
  datatype ValueInfo = ValueInfo(name: string, elemType: DataType, dims: seq<int>)

  /** A `NodeProto`: op type and ordered input and output tensor names. */
  datatype Node = Node(opType: string, inputs: seq<string>, outputs: seq<string>)

  /** A `GraphProto`: graph inputs, nodes in the given (topological) order, graph outputs. */
  datatype Graph = Graph(inputs: seq<ValueInfo>, nodes: seq<Node>, outputs: seq<ValueInfo>)

  /** A `ModelProto`, of which the importer reads only the graph. */
  datatype Model = Model(graph: Graph)
}
