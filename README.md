# ONNX graph importer (frontend dialect transformer), modelled in Dafny

This project models the ONNX importer in `src/builder/frontend_dialect_transformer.cpp`.
The importer walks an in-memory ONNX graph once and builds one MLIR function, `main`:

- Every graph input becomes a ranked tensor parameter. A positive declared dimension is kept; any other dimension becomes `-1`.
- Every input name is bound to its entry-block argument in a symbol table keyed by legalized names. Legalizing turns `/` and `-` into `_` and `:` into `_colon_`, and prepends `n` before a leading digit.
- Every node becomes one operation. `Add`, `MatMul` and `Gemm` (`FullGemm` with exactly three operands) bind their first output. Any other op type becomes a generic `frontend.<op>` operation with one unranked f32 result per output.
- The outputs are looked up, returned by a return operation, and written back into the function's signature.

Layout, one module per file:

- `wrappers.dfy` (`Wrappers`): `Option`, `Result` and `Outcome`.
- `legalizer.dfy` (`Legalizer`): `replaceAll` and the `std::replace` calls are methods with loops, and `legalize_name` is a method that calls them; each is proved against a specification function. The lemmas cover what legalized names look like and legalization's idempotence.
- `ir.dfy` (`Ir`): the MLIR side, as plain values. It has element and tensor types, values (`Arg(i)` for an entry-block argument, `OpResult(j, k)` for result `k` of the `j`-th emitted operation), operations and the function signature.
- `onnx.dfy` (`Onnx`): the ONNX side, covering element-type codes, value infos, nodes, graphs and models.
- `type_converter.dfy` (`TypeConverter`): `TypeConvert`, as a pure function.
- `symbols.dfy` (`Symbols`): `OnnxOnnfSymbolMapping`, as class `SymbolMapping` with a `map` field, plus first-wins insertion (`std::map::emplace`) as a function.
- `import_spec.dfy` (`ImportSpec`): what each step of `FrontendGenImpl` computes, as functions, with the lemmas for the importer's properties.
- `frontend.dfy` (`Frontend`): class `FrontendGenImpl`. Its fields are the symbol table, the module's functions, the entry-block argument types and the emitted operation sequence. Its methods have the source's loops and are proved against `ImportSpec`.
- `scenarios.dfy` (`Scenarios`): concrete graphs worked through the specification.

Asserts and out-of-range accesses in the source become explicit errors (`ImportError`) rather than preconditions:

- the duplicate-input assert;
- the missing-output assert;
- `inputs[0]` and `inputs[1]` read with fewer than two resolved operands;
- `node.output()[0]` read on a node without outputs.

A graph that reaches one of these gives `Failure` from the specification and `Fail` from the methods. The model keeps these behaviours of the code as written:

- `AddMapping` and `GetTensorByOnnxName` legalize their argument again, while `ContainKey` does not.
- Binding is silently first-wins everywhere except for graph inputs.
- Unbound operand names are dropped without an error.
- A null element type is not rejected before operations use it.

## Model

| member | source | states |
|---|---|---|
| Legalizer.Find | src/builder/frontend_dialect_transformer.cpp:50 | `str.find(from, start_pos)`: the result is a match at or after the start with no earlier match, and `None` means no match at any later position |
| Legalizer.ReplaceChar | src/builder/frontend_dialect_transformer.cpp:58-59 | the `std::replace` loop yields the string with every `c` replaced by `d` and every other character kept |
| Legalizer.ReplaceAll | src/builder/frontend_dialect_transformer.cpp:45-55 | the loop terminates and yields the left-to-right, non-overlapping substitution of `from` by `to`, never rescanning inserted text; an empty `from` leaves the string unchanged |
| Legalizer.MatchedStep | src/builder/frontend_dialect_transformer.cpp:51-52 | one replacement at a match emits `to` and resumes after the matched text |
| Legalizer.SubstAllChars | src/builder/frontend_dialect_transformer.cpp:45-55 | every character of the result comes from the input or from `to` |
| Legalizer.SubstAllRemoves | src/builder/frontend_dialect_transformer.cpp:60 | replacing a one-character `from` by text that does not contain it leaves no occurrence of that character (no `:` is left after `":" -> "_colon_"`) |
| Legalizer.SubstCharRemoves | src/builder/frontend_dialect_transformer.cpp:58-59 | after `std::replace(c, d)` the character `c` is gone (unless `c == d`), and nothing other than `d` is introduced |
| Legalizer.SubstChar | src/builder/frontend_dialect_transformer.cpp:58-59 | defines what `std::replace(first, last, c, d)` leaves: the same length, each `c` replaced by `d`, every other character kept |
| Legalizer.SubstAll | src/builder/frontend_dialect_transformer.cpp:45-55 | defines `replaceAll`'s result: scanning left to right, each match of `from` is replaced by `to` and the scan resumes after the matched text; an empty `from` leaves the string unchanged |
| Legalizer.Legalize | src/builder/frontend_dialect_transformer.cpp:57-66 | defines `legalize_name`: `/` then `-` become `_`, `:` becomes `_colon_`, and `n` is prepended when the result starts with a digit |
| Legalizer.LegalizeName | src/builder/frontend_dialect_transformer.cpp:57-66 | the method computes the legalized name: the two character replacements, then `:` to `_colon_`, then `n` before a leading digit |
| Legalizer.LegalizeEmpty | src/builder/frontend_dialect_transformer.cpp:63 | the empty name legalizes to the empty name |
| Legalizer.LegalizeIsLegal | src/builder/frontend_dialect_transformer.cpp:57-65 | a legalized name contains no `/`, `-` or `:` and does not start with a digit |
| Legalizer.LegalizeKeepsLegal | src/builder/frontend_dialect_transformer.cpp:57-66 | legalizing a name that is already legal returns it unchanged |
| Legalizer.LegalizeFixedPoints | src/builder/frontend_dialect_transformer.cpp:57-66 | a name is a fixed point of legalization if and only if it is legal |
| Legalizer.LegalizeIdempotent | src/builder/frontend_dialect_transformer.cpp:57-66 | legalizing twice equals legalizing once |
| Symbols.Emplace | src/builder/frontend_dialect_transformer.cpp:84 | `std::map::emplace`: the key set grows by exactly the key, existing keys keep their values, and an absent key receives the new value |
| Symbols.BindAll | src/builder/frontend_dialect_transformer.cpp:249-252 | defines the table after a sequence of `emplace` calls, applied in order |
| Symbols.BindAllFirstWins | src/builder/frontend_dialect_transformer.cpp:249-252 | after a sequence of emplaces, a key already bound keeps its value; an unbound key is bound if and only if some binding names it, and then to the first such binding's value |
| Symbols.BindAllValues | src/builder/frontend_dialect_transformer.cpp:249-252 | every bound value was either already in the table or is one of the bindings |
| Symbols.RelegalizedKeysAgree | src/builder/frontend_dialect_transformer.cpp:74-89 | for an already-legalized key, the non-legalizing `ContainKey` agrees with the re-legalizing lookup and insertion: membership, looked-up value and the emplaced table all coincide |
| Symbols.SymbolMapping.constructor | src/builder/frontend_dialect_transformer.cpp:95 | a new mapping is empty |
| Symbols.SymbolMapping.GetTensorByOnnxName | src/builder/frontend_dialect_transformer.cpp:74-76 | the lookup succeeds if and only if the legalized name is bound, and then returns its value; otherwise it reports absence (where `map::at` throws) |
| Symbols.SymbolMapping.AddMapping | src/builder/frontend_dialect_transformer.cpp:83-85 | the table becomes the first-wins insertion of the legalized name |
| Symbols.SymbolMapping.ContainKey | src/builder/frontend_dialect_transformer.cpp:87-89 | the result is true if and only if the name, not legalized, is a key |
| TypeConverter.TypeConvert | src/builder/frontend_dialect_transformer.cpp:122-150 | exactly STRING, COMPLEX64, COMPLEX128 and UNDEFINED give the null type; exactly the integer codes and BOOL give an integer type; exactly FLOAT16, FLOAT and DOUBLE give a float type; the bit width equals the code's nominal width (BOOL is i1) |
| TypeConverter.SignednessDropped | src/builder/frontend_dialect_transformer.cpp:130-141 | a signed and an unsigned code of the same width convert to the same integer type of that width |
| TypeConverter.TypeConvertOnlyMergesSignedness | src/builder/frontend_dialect_transformer.cpp:122-150 | two supported codes with the same converted type are equal or are integer codes of the same width |
| ImportSpec.ImportedDim | src/builder/frontend_dialect_transformer.cpp:163-176 | defines the imported extent of one declared dim: a positive value is kept, zero (unset) and negative values become `-1` |
| ImportSpec.BindInputsFrom | src/builder/frontend_dialect_transformer.cpp:192-199 | defines the input-binding loop from a given table and argument index: each legalized input name already bound stops it with a duplicate-input error, otherwise it is bound to the next argument |
| ImportSpec.BindInputs | src/builder/frontend_dialect_transformer.cpp:305-307 | defines the input-binding loop of `ImportGraph`, from an empty table with input `i` paired with argument `i` |
| ImportSpec.Resolve | src/builder/frontend_dialect_transformer.cpp:202-207 | defines a node's operand list: in input order, the value of each input whose legalized name is bound, with unbound names dropped |
| ImportSpec.ImportNodeSpec | src/builder/frontend_dialect_transformer.cpp:201-255 | defines `ImportNode`: the op-type dispatch, the operation appended to the body, the bindings of its outputs, and the errors that stand for the asserts and out-of-range reads |
| ImportSpec.ImportNodesFrom | src/builder/frontend_dialect_transformer.cpp:311-313 | defines the node loop: each node imported in order into the state the previous one left, stopping at the first error |
| ImportSpec.CollectOutputsFrom | src/builder/frontend_dialect_transformer.cpp:269-281 | defines the output loop from given accumulators: each output's legalized name must be bound (else output-not-found), and its value and that value's type are appended |
| ImportSpec.CollectOutputs | src/builder/frontend_dialect_transformer.cpp:315-320 | defines the output loop of `ImportGraph`, starting from empty result types and return values |
| ImportSpec.NodesState | src/builder/frontend_dialect_transformer.cpp:305-313 | defines the table and body after binding the inputs and importing every node |
| ImportSpec.ImportGraphSpec | src/builder/frontend_dialect_transformer.cpp:283-328 | defines `ImportGraph`: the function `main` with the input types as parameters and the outputs' types as results, the entry-block argument types, and the body ending in a return of the outputs' values |
| ImportSpec.InputTensorType | src/builder/frontend_dialect_transformer.cpp:160-182 | the parameter type is ranked with the converted element type, has one dim per declared dim, keeps positive dims and records the rest as `-1` |
| ImportSpec.InputTypes | src/builder/frontend_dialect_transformer.cpp:292-294 | one parameter type per graph input |
| ImportSpec.BindInputsFromSucceeds | src/builder/frontend_dialect_transformer.cpp:305-307 | binding the inputs succeeds if and only if their legalized names are pairwise distinct and not yet bound, and otherwise fails with a duplicate-input error |
| ImportSpec.BindInputsFromContents | src/builder/frontend_dialect_transformer.cpp:305-307 | after binding, earlier keys are unchanged, input `i` is bound to argument `next + i`, and no other key is added |
| ImportSpec.InputsBoundPairwise | src/builder/frontend_dialect_transformer.cpp:305-307 | on a fresh table the inputs bind if and only if the legalized names are distinct, a failure is a duplicate-input error, and input `i` is bound to argument `i` with no other key |
| ImportSpec.BindInputsWellFormed | src/builder/frontend_dialect_transformer.cpp:305-307 | every value bound by the inputs is an existing entry-block argument |
| ImportSpec.ResultBindings | src/builder/frontend_dialect_transformer.cpp:249-252 | one binding per node output |
| ImportSpec.F32Results | src/builder/frontend_dialect_transformer.cpp:244-246 | one result type per node output |
| ImportSpec.ResolveAppend | src/builder/frontend_dialect_transformer.cpp:203-207 | resolving a concatenation concatenates the resolved operands, so the operand loop keeps input order |
| ImportSpec.ResolveBound | src/builder/frontend_dialect_transformer.cpp:203-207 | there are never more operands than inputs; there are exactly as many if and only if every legalized input name is bound, and then operand `i` is input `i`'s value |
| ImportSpec.ResolveMembers | src/builder/frontend_dialect_transformer.cpp:203-207 | every operand is the value bound to one of the node's input names |
| ImportSpec.ResolveWellFormed | src/builder/frontend_dialect_transformer.cpp:203-207 | operands resolved from a well-formed table refer to existing arguments or results |
| ImportSpec.NodeSpecWellFormed | src/builder/frontend_dialect_transformer.cpp:201-255 | a node that imports appends exactly one operation and keeps every bound value referring to an existing argument or result |
| ImportSpec.NodesFromWellFormed | src/builder/frontend_dialect_transformer.cpp:311-313 | importing the nodes only appends operations and keeps the table well formed |
| ImportSpec.BinaryNodeDispatch | src/builder/frontend_dialect_transformer.cpp:212-225 | `Add`/`MatMul` import if and only if there are at least two operands and an output; too few operands is an error naming the count; on success they emit one `Add`/`MatMul` on the first two operands with one unranked f32 result |
| ImportSpec.GemmNodeDispatch | src/builder/frontend_dialect_transformer.cpp:226-240 | `Gemm` imports if and only if it has an output, and emits `FullGemm` exactly when there are three operands, otherwise the variadic `Gemm` on all operands, with one unranked f32 result |
| ImportSpec.SpecialNodeBindsFirstOutput | src/builder/frontend_dialect_transformer.cpp:216-237 | `Add`, `MatMul` and `Gemm` bind only their first output, first-wins, to result 0 of the new operation |
| ImportSpec.GenericNodeDispatch | src/builder/frontend_dialect_transformer.cpp:243-252 | any other op type always imports as `frontend.<op>` on the resolved operands with one unranked f32 result per output; earlier bindings are kept, only output names are added, and the first unbound occurrence of output `i` is bound to result `i` |
| ImportSpec.NodesStateWellFormed | src/builder/frontend_dialect_transformer.cpp:305-313 | after inputs and nodes, every bound value refers to an existing argument or operation result |
| ImportSpec.CollectOutputsFromCorrect | src/builder/frontend_dialect_transformer.cpp:318-320 | the output loop succeeds if and only if every legalized output name is bound, and otherwise fails with an output-not-found error; it appends, in order, each output's value and that value's type |
| ImportSpec.ImportGraphSignature | src/builder/frontend_dialect_transformer.cpp:289-299 | the function is `main` with one parameter per graph input, in order, each the input's tensor type, and these are the entry-block argument types |
| ImportSpec.ImportGraphRejectsDuplicateInputs | src/builder/frontend_dialect_transformer.cpp:195-197 | a graph with two inputs whose legalized names coincide fails with a duplicate-input error |
| ImportSpec.ImportGraphOutputs | src/builder/frontend_dialect_transformer.cpp:315-327 | once the nodes import, the graph imports if and only if every output is bound; the body gains exactly one return, whose operands are the outputs' values in order, and the signature's result types are their types |
| Ir.WellFormedGrows | src/builder/frontend_dialect_transformer.cpp:277-279 | a value's existence and type are unaffected by emitting later operations |
| Frontend.FrontendGenImpl.constructor | src/builder/frontend_dialect_transformer.cpp:100-103 | a new importer has an empty module, body and symbol table |
| Frontend.FrontendGenImpl.ImportInputTensorType | src/builder/frontend_dialect_transformer.cpp:158-183 | the dims loop appends exactly the input's parameter type to the type list |
| Frontend.FrontendGenImpl.ImportInputTensorSymbol | src/builder/frontend_dialect_transformer.cpp:192-199 | a legalized name already bound fails the duplicate-input check and changes nothing; otherwise exactly that name is bound to the argument |
| Frontend.FrontendGenImpl.ResolveOperands | src/builder/frontend_dialect_transformer.cpp:202-207 | the operand loop collects exactly the resolved operands, in order |
| Frontend.FrontendGenImpl.BindResults | src/builder/frontend_dialect_transformer.cpp:249-252 | the output loop leaves the table as the first-wins binding of output `i` to result `i` |
| Frontend.FrontendGenImpl.BindFirstOutput | src/builder/frontend_dialect_transformer.cpp:216-237 | a node without outputs fails; otherwise its first output is emplaced as result 0 |
| Frontend.FrontendGenImpl.ImportNode | src/builder/frontend_dialect_transformer.cpp:201-255 | the new table and body are the node's specified import, failing exactly when it fails, and the table stays well formed |
| Frontend.FrontendGenImpl.ImportOutputTensor | src/builder/frontend_dialect_transformer.cpp:269-281 | succeeds if and only if the legalized output name is bound, and then appends its value and its type; otherwise fails with output-not-found |
| Frontend.FrontendGenImpl.ImportGraph | src/builder/frontend_dialect_transformer.cpp:283-328 | the four loops and the signature update leave exactly the specified function, entry-block arguments and body, or fail with the specified error |
| Frontend.FrontendGenImpl.ImportONNXModel | src/builder/frontend_dialect_transformer.cpp:105-108 | importing a model is importing its graph |
| Frontend.ImportFrontendModel | src/builder/frontend_dialect_transformer.cpp:336-343 | a fresh importer's result is the graph's specified import |
| Scenarios.LegalizeExample | src/builder/frontend_dialect_transformer.cpp:57-66 | `1:a/b-c` legalizes to `n1_colon_a_b_c` |
| Scenarios.NoRescanExample | src/builder/frontend_dialect_transformer.cpp:52-53 | replacing `x` by `yx` in `xx` gives `yxyx`: the inserted text is not rescanned |
| Scenarios.BindSingleInput | src/builder/frontend_dialect_transformer.cpp:305-307 | a single input `x` is bound to argument 0 |
| Scenarios.AddGraph | src/builder/frontend_dialect_transformer.cpp:283-328 | `y = Add(x, x)` imports as `main(tensor<1x3xf32>) -> tensor<*xf32>` with one Add and one return of its result |
| Scenarios.UnknownOpGraph | src/builder/frontend_dialect_transformer.cpp:243-252 | an unknown op type `Frobnicate` imports as `frontend.Frobnicate` and its output can be returned |
| Scenarios.DroppedOperandGraph | src/builder/frontend_dialect_transformer.cpp:203-218 | an `Add` with an unbound input has one operand left and is rejected with too-few-operands |

## Left out

- Protobuf loading and file I/O (`ImportFrontendModelFile`, `ParseFromIstream`) are not modelled: they are I/O, and the parse status is ignored anyway.
- MLIR internals (`MLIRContext`, `OpBuilder`, `ModuleOp`, `FuncOp`, locations, the ONNX dialect op classes, `module.dump()`) are foreign library calls. They are abstracted as an operation sequence plus value and type datatypes, and `dump` is left out as output.
- Node attributes and graph initializers are not modelled: the source does not import them either.
- The runtime tensor descriptor is not part of this model: its source is not among the modelled files.
- Names are modelled as Dafny strings of characters, while the source works on bytes of `std::string`. Every rewrite and the digit test touch only ASCII characters, so the two coincide on the characters the importer changes.
- ImportSpec.InputTensorType: for an input of type STRING, COMPLEX64, COMPLEX128 or UNDEFINED, the model yields a ranked type with the null element type. This assumes `mlir::RankedTensorType::get` accepts a null element type, as the source calls it without a check. MLIR's own source is not part of this model; if MLIR rejects a null element type, such inputs crash the source instead.
- Onnx.ValueInfo: each dim is an unbounded integer. The narrowing of the 64-bit `dim_value` to `int` on line 165 is not modelled, so a dimension beyond 32 bits is not truncated.
- Legalizer.IsDigit: `isdigit` is modelled as ASCII `'0'..'9'`; locale effects are not modelled.
- Onnx.DataType: the element-type code is a closed enumeration of the 16 codes in the `switch`. Out-of-range codes, which fall off the end of `TypeConvert` without a return, are not modelled.
- ImportSpec.ImportNodeSpec: the source's undefined behaviour (reading `inputs[0]`/`inputs[1]` with fewer than two resolved operands, or `node.output()[0]` with no outputs) is modelled as an import error rather than as arbitrary behaviour.
- Frontend.FrontendGenImpl.ImportInputTensorSymbol: the duplicate-name `assert` is modelled as a failed import, which is its effect in a debug build. A release build, where the assert is compiled out, is not modelled; there the duplicate is silently ignored by `emplace`.
- Frontend.FrontendGenImpl.ImportOutputTensor: the output-not-found `assert` is likewise modelled as a failed import; the exception that `map::at` would throw in a release build is not modelled separately.
- Frontend.FrontendGenImpl.ImportGraph: requires a freshly constructed importer, as in `ImportFrontendModel`; importing a second graph into the same importer is not modelled. A failed import leaves the class state unspecified, as the source aborts.
- Frontend.FrontendGenImpl.ImportInputTensorType: the legalized name computed on line 162 is unused in the source and is not computed in the model.
- The operand count of `FullGemm`/`Gemm` and the element types of operands (including a null element type) are not checked, matching the source; MLIR's own op verification is not modelled.
