/**
 * `FrontendGenImpl`: the importer object. It owns the symbol table, the module
 * being built and the builder's insertion point (the entry block of `main`),
 * and fills them in one pass over the graph.
 */
module Frontend {
  import opened Wrappers
  import opened Legalizer
  import opened Ir
  import opened Onnx
  import opened TypeConverter
  import opened Symbols
  import opened ImportSpec

  class FrontendGenImpl {
    /** `frontend_symbols_`. */
    const symbols: SymbolMapping
    /** `module_`: the functions pushed into the module, with their current signatures. */
    var functions: seq<Func>
    /** The argument types of the entry block the builder inserts into. */
    var entryArgs: seq<TensorType>
    /** The operations inserted into that entry block so far. */
    var body: seq<Op>

    /** Every bound value is an entry block argument or a result of an inserted operation. */
    ghost predicate Valid()
      reads this, symbols
    {
      TableWellFormed(symbols.table, |entryArgs|, body)
    }

    constructor ()
      ensures fresh(symbols)
      ensures functions == [] && entryArgs == [] && body == [] && symbols.table == map[]
    {
      symbols := new SymbolMapping();
      functions := [];
      entryArgs := [];
      body := [];
    }

    /** `ImportInputTensorType`: appends the parameter type of `input` to `argTypes`. */
    method ImportInputTensorType(input: ValueInfo, argTypes: seq<TensorType>) returns (types: seq<TensorType>)
      ensures types == argTypes + [InputTensorType(input)]
    {
      var dims: seq<int> := [];
      for i := 0 to |input.dims|
        invariant |dims| == i
        invariant forall k :: 0 <= k < i ==> dims[k] == ImportedDim(input.dims[k])
      {
        if input.dims[i] != 0 {
          var dimNumericSize := input.dims[i];
          if dimNumericSize > 0 {
            dims := dims + [dimNumericSize];
          } else {
            dims := dims + [-1];
          }
        } else {
          dims := dims + [-1];
        }
      }
      var elementType := TypeConvert(input.elemType);
      assert dims == InputTensorType(input).dims;
      types := argTypes + [Ranked(dims, elementType)];
    }

    /** `ImportInputTensorSymbol`: binds the legalized input name, which must not be bound yet. */
    method ImportInputTensorSymbol(input: ValueInfo, symbol: Value) returns (status: Outcome<ImportError>)
      modifies symbols
      ensures var key := Legalize(input.name);
        if key in old(symbols.table) then status == Fail(DuplicateInput(input.name))
        else status == Pass && symbols.table == old(symbols.table)[key := symbol]
      ensures status.Fail? ==> symbols.table == old(symbols.table)
    {
      var key := LegalizeName(input.name);
      var duplicate := symbols.ContainKey(key);
      if duplicate {
        return Fail(DuplicateInput(input.name));
      }
      symbols.AddMapping(key, symbol);
      LegalizeIdempotent(input.name);
      status := Pass;
    }

    /** The operand loop of `ImportNode`: the values of the inputs whose legalized names are bound. */
    method ResolveOperands(names: seq<string>) returns (inputs: seq<Value>)
      ensures inputs == Resolve(names, symbols.table)
    {
      inputs := [];
      for i := 0 to |names|
        invariant inputs == Resolve(names[..i], symbols.table)
        modifies {}
      {
        var key := LegalizeName(names[i]);
        var bound := symbols.ContainKey(key);
        if bound {
          var v := symbols.GetTensorByOnnxName(names[i]);
          inputs := inputs + [v.value];
        }
        assert names[..i + 1] == names[..i] + [names[i]];
        ResolveAppend(names[..i], [names[i]], symbols.table);
      }
      assert names[..|names|] == names;
    }

    /** The binding loop of the generic path: output `i` to result `i` of operation `j`. */
    method BindResults(outputs: seq<string>, j: nat)
      modifies symbols
      ensures symbols.table == BindAll(old(symbols.table), ResultBindings(outputs, j))
    {
      ghost var bindings := ResultBindings(outputs, j);
      for i := 0 to |outputs|
        invariant BindAll(symbols.table, bindings[i..]) == BindAll(old(symbols.table), bindings)
      {
        assert bindings[i..][0] == bindings[i] && bindings[i..][1..] == bindings[i + 1..];
        var out := LegalizeName(outputs[i]);
        symbols.AddMapping(out, OpResult(j, i));
        LegalizeIdempotent(outputs[i]);
      }
      assert bindings[|outputs|..] == [];
    }

    /** Binds the first output of a node, if it has one, to result 0 of operation `j`. */
    method BindFirstOutput(node: Node, j: nat) returns (status: Outcome<ImportError>)
      modifies symbols
      ensures |node.outputs| == 0 ==> status == Fail(NoNodeOutput(node.opType))
      ensures |node.outputs| > 0 ==>
        status == Pass && symbols.table == Emplace(old(symbols.table), Legalize(node.outputs[0]), OpResult(j, 0))
    {
      if |node.outputs| == 0 {
        return Fail(NoNodeOutput(node.opType));
      }
      var out := LegalizeName(node.outputs[0]);
      symbols.AddMapping(out, OpResult(j, 0));
      LegalizeIdempotent(node.outputs[0]);
      status := Pass;
    }

    /** `ImportNode`: resolves the operands, appends one operation and binds its results. */
    method ImportNode(node: Node) returns (status: Outcome<ImportError>)
      requires Valid()
      modifies symbols, this`body
      ensures match ImportNodeSpec(Built(old(symbols.table), old(body)), node)
        case Success(st) => status == Pass && symbols.table == st.table && body == st.body
        case Failure(e) => status == Fail(e)
      ensures status.Pass? ==> Valid()
    {
      ghost var st0 := Built(symbols.table, body);
      var inputs := ResolveOperands(node.inputs);
      var j := |body|;
      if node.opType == "Add" {
        if |inputs| < 2 {
          return Fail(TooFewOperands(node.opType, |inputs|));
        }
        body := body + [Op(AddOp, [inputs[0], inputs[1]], [UNRANKED_F32])];
        status := BindFirstOutput(node, j);
      } else if node.opType == "MatMul" {
        if |inputs| < 2 {
          return Fail(TooFewOperands(node.opType, |inputs|));
        }
        body := body + [Op(MatMulOp, [inputs[0], inputs[1]], [UNRANKED_F32])];
        status := BindFirstOutput(node, j);
      } else if node.opType == "Gemm" {
        if |inputs| == 3 {
          body := body + [Op(FullGemmOp, [inputs[0], inputs[1], inputs[2]], [UNRANKED_F32])];
          assert [inputs[0], inputs[1], inputs[2]] == inputs;
        } else {
          body := body + [Op(GemmOp, inputs, [UNRANKED_F32])];
        }
        status := BindFirstOutput(node, j);
      } else {
        // The generic path: an operation named "frontend.<op type>".
        var results: seq<TensorType> := [];
        for k := 0 to |node.outputs|
          invariant results == F32Results(k)
        {
          results := results + [UNRANKED_F32];
        }
        body := body + [Op(GenericOp("frontend." + node.opType), inputs, results)];
        BindResults(node.outputs, j);
        status := Pass;
      }
      if status.Pass? {
        NodeSpecWellFormed(st0, node, |entryArgs|);
      }
    }

    /** `ImportOutputTensor`: looks up an output, which must be bound, and appends its type and value. */
    method ImportOutputTensor(output: ValueInfo, retTypes: seq<TensorType>, retVals: seq<Value>)
      returns (status: Outcome<ImportError>, types: seq<TensorType>, vals: seq<Value>)
      requires Valid()
      ensures var key := Legalize(output.name);
        && (status.Pass? <==> key in symbols.table)
        && (status.Fail? ==> status == Fail(OutputNotFound(output.name)))
        && (status.Pass? ==> && vals == retVals + [symbols.table[key]]
                             && types == retTypes + [TypeOf(symbols.table[key], entryArgs, body)])
    {
      var key := LegalizeName(output.name);
      var found := symbols.ContainKey(key);
      if !found {
        return Fail(OutputNotFound(output.name)), retTypes, retVals;
      }
      var tensorVal := symbols.GetTensorByOnnxName(key);
      LegalizeIdempotent(output.name);
      types := retTypes + [TypeOf(tensorVal.value, entryArgs, body)];
      vals := retVals + [tensorVal.value];
      status := Pass;
    }

    /**
     * `ImportGraph`: parameter types, the function shell `main`, the input
     * bindings, the nodes, the outputs, the return and the final signature.
     */
    method ImportGraph(g: Graph) returns (status: Outcome<ImportError>)
      requires functions == [] && entryArgs == [] && body == [] && symbols.table == map[]
      modifies this, symbols
      ensures match ImportGraphSpec(g)
        case Success(imp) => status == Pass && functions == [imp.func] && entryArgs == imp.entryArgs && body == imp.body
        case Failure(e) => status == Fail(e)
    {
      var argTypes: seq<TensorType> := [];
      for i := 0 to |g.inputs|
        invariant argTypes == InputTypes(g.inputs[..i])
        modifies {}
      {
        argTypes := ImportInputTensorType(g.inputs[i], argTypes);
      }
      assert g.inputs[..|g.inputs|] == g.inputs;

      // The function shell: no results yet, one entry block argument per input.
      var funcType := FunctionType(argTypes, []);
      entryArgs := argTypes;
      functions := functions + [Func("main", funcType)];

      for i := 0 to |g.inputs|
        invariant BindInputsFrom(symbols.table, g.inputs[i..], i) == BindInputs(g.inputs)
        invariant Valid()
        modifies symbols
      {
        assert g.inputs[i..][0] == g.inputs[i] && g.inputs[i..][1..] == g.inputs[i + 1..];
        var st := ImportInputTensorSymbol(g.inputs[i], Arg(i));
        if st.Fail? {
          return st;
        }
      }
      assert g.inputs[|g.inputs|..] == [];
      ghost var m0 := symbols.table;

      for i := 0 to |g.nodes|
        invariant ImportNodesFrom(Built(symbols.table, body), g.nodes[i..]) == ImportNodesFrom(Built(m0, []), g.nodes)
        invariant Valid()
        modifies symbols, this`body
      {
        assert g.nodes[i..][0] == g.nodes[i] && g.nodes[i..][1..] == g.nodes[i + 1..];
        var st := ImportNode(g.nodes[i]);
        if st.Fail? {
          return st;
        }
      }
      assert g.nodes[|g.nodes|..] == [];
      assert NodesState(g) == Success(Built(symbols.table, body));

      var retTypes: seq<TensorType> := [];
      var retVals: seq<Value> := [];
      for i := 0 to |g.outputs|
        invariant CollectOutputsFrom(g.outputs[i..], symbols.table, entryArgs, body, retTypes, retVals)
               == CollectOutputs(g.outputs, symbols.table, entryArgs, body)
        modifies {}
      {
        assert g.outputs[i..][0] == g.outputs[i] && g.outputs[i..][1..] == g.outputs[i + 1..];
        var st;
        st, retTypes, retVals := ImportOutputTensor(g.outputs[i], retTypes, retVals);
        if st.Fail? {
          return st;
        }
      }
      assert g.outputs[|g.outputs|..] == [];

      body := body + [Op(ReturnOp, retVals, [])];
      // main_func.setType: the signature now lists the output types.
      funcType := FunctionType(argTypes, retTypes);
      functions := functions[0 := Func(functions[0].name, funcType)];
      status := Pass;
    }

    /** `ImportONNXModel`: imports the model's graph; the module is read from `functions`. */
    method ImportONNXModel(model: Model) returns (status: Outcome<ImportError>)
      requires functions == [] && entryArgs == [] && body == [] && symbols.table == map[]
      modifies this, symbols
      ensures match ImportGraphSpec(model.graph)
        case Success(imp) => status == Pass && functions == [imp.func] && entryArgs == imp.entryArgs && body == imp.body
        case Failure(e) => status == Fail(e)
    {
      status := ImportGraph(model.graph);
    }
  }

  /** `ImportFrontendModel`: a fresh importer imports the model and hands back its module. */
  method ImportFrontendModel(model: Model) returns (r: Result<Imported, ImportError>)
    ensures r == ImportGraphSpec(model.graph)
  {
    var gen := new FrontendGenImpl();
    var status := gen.ImportONNXModel(model);
    match status
    case Fail(e) =>
      r := Failure(e);
    case Pass =>
      r := Success(Imported(gen.functions[0], gen.entryArgs, gen.body));
  }
}
