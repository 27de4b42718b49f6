/**
 * What `FrontendGenImpl` computes, as functions of the ONNX graph: the
 * parameter types, the input bindings, the effect of each node on the symbol
 * table and on the entry block, the collected outputs, and the final function.
 * The importer class is proved against these functions; the lemmas state what
 * the importer promises.
 */
module ImportSpec {
  import opened Wrappers
  import opened Legalizer
  import opened Ir
  import opened Onnx
  import opened TypeConverter
  import opened Symbols

  /** The ways an import stops: the two asserts, and the two out-of-range accesses. */
  datatype ImportError =
    | DuplicateInput(name: string)              // "Found duplicate legalized input tensor names."
    | TooFewOperands(opType: string, count: nat) // inputs[0] / inputs[1] read past the operand list
    | NoNodeOutput(opType: string)              // node.output()[0] on a node without outputs
    | OutputNotFound(name: string)              // "Output tensor not found"

  /** The symbol table and the operations of the entry block. */
  datatype Built = Built(table: map<string, Value>, body: seq<Op>)

  /** The module's one function, the types of its entry block arguments, and its body. */
  datatype Imported = Imported(func: Func, entryArgs: seq<TensorType>, body: seq<Op>)

  const UNRANKED_F32 := Unranked(F32)

  // ---------------------------------------------------------------------------
  // Input types

  /** The dimension `ImportInputTensorType` records for a declared `dim_value`. */
  function ImportedDim(d: int): int {
    if d > 0 then d else -1
  }

  /** The parameter type of one graph input. */
  function InputTensorType(input: ValueInfo): (t: TensorType)
    ensures t.Ranked? && t.elem == TypeConvert(input.elemType) && |t.dims| == |input.dims|
    ensures forall i :: 0 <= i < |t.dims| && input.dims[i] > 0 ==> t.dims[i] == input.dims[i]
    ensures forall i :: 0 <= i < |t.dims| && input.dims[i] <= 0 ==> t.dims[i] == -1
  {
    Ranked(seq(|input.dims|, i requires 0 <= i < |input.dims| => ImportedDim(input.dims[i])),
           TypeConvert(input.elemType))
  }

  function InputTypes(inputs: seq<ValueInfo>): (ts: seq<TensorType>)
    ensures |ts| == |inputs|
  {
    seq(|inputs|, i requires 0 <= i < |inputs| => InputTensorType(inputs[i]))
  }

  // ---------------------------------------------------------------------------
  // Input bindings

  /** Binds `inputs` in order to the arguments numbered from `next`, stopping at a duplicate. */
  function BindInputsFrom(m: map<string, Value>, inputs: seq<ValueInfo>, next: nat)
    : Result<map<string, Value>, ImportError>
    decreases |inputs|
  {
    if inputs == [] then Success(m)
    else
      var key := Legalize(inputs[0].name);
      if key in m then Failure(DuplicateInput(inputs[0].name))
      else BindInputsFrom(m[key := Arg(next)], inputs[1..], next + 1)
  }

  function BindInputs(inputs: seq<ValueInfo>): Result<map<string, Value>, ImportError> {
    BindInputsFrom(map[], inputs, 0)
  }

  predicate DistinctLegalNames(inputs: seq<ValueInfo>) {
    forall i, j :: 0 <= i < j < |inputs| ==> Legalize(inputs[i].name) != Legalize(inputs[j].name)
  }

  /** Distinct names split into a first name, absent from the rest, and distinct remaining names. */
  lemma DistinctLegalNamesCons(inputs: seq<ValueInfo>)
    requires inputs != []
    ensures DistinctLegalNames(inputs) <==>
      && DistinctLegalNames(inputs[1..])
      && forall i :: 0 <= i < |inputs[1..]| ==> Legalize(inputs[1..][i].name) != Legalize(inputs[0].name)
  {
    var rest := inputs[1..];
    if !DistinctLegalNames(inputs) {
      var i, j :| 0 <= i < j < |inputs| && Legalize(inputs[i].name) == Legalize(inputs[j].name);
      assert rest[j - 1] == inputs[j];
      if i > 0 { assert rest[i - 1] == inputs[i]; }
    }
  }

  lemma {:induction false} BindInputsFromSucceeds(m: map<string, Value>, inputs: seq<ValueInfo>, next: nat)
    ensures BindInputsFrom(m, inputs, next).Success? <==>
      DistinctLegalNames(inputs) && forall i :: 0 <= i < |inputs| ==> Legalize(inputs[i].name) !in m
    ensures BindInputsFrom(m, inputs, next).Failure? ==> BindInputsFrom(m, inputs, next).error.DuplicateInput?
    decreases |inputs|
  {
    if inputs != [] {
      var key := Legalize(inputs[0].name);
      var rest := inputs[1..];
      DistinctLegalNamesCons(inputs);
      if key !in m {
        BindInputsFromSucceeds(m[key := Arg(next)], rest, next + 1);
        assert forall i :: 0 <= i < |rest| ==> rest[i] == inputs[i + 1];
        if !(forall i :: 0 <= i < |inputs| ==> Legalize(inputs[i].name) !in m) {
          var i :| 0 <= i < |inputs| && Legalize(inputs[i].name) in m;
          assert rest[i - 1] == inputs[i];
        }
      }
    }
  }

  lemma {:induction false} BindInputsFromContents(m: map<string, Value>, inputs: seq<ValueInfo>, next: nat)
    requires BindInputsFrom(m, inputs, next).Success?
    ensures var r := BindInputsFrom(m, inputs, next).value;
      && (forall k :: k in m ==> k in r && r[k] == m[k])
      && (forall i :: 0 <= i < |inputs| ==> Legalize(inputs[i].name) in r && r[Legalize(inputs[i].name)] == Arg(next + i))
      && (forall k :: k in r && k !in m ==> exists i :: 0 <= i < |inputs| && k == Legalize(inputs[i].name))
    decreases |inputs|
  {
    if inputs != [] {
      var key := Legalize(inputs[0].name);
      var rest := inputs[1..];
      BindInputsFromContents(m[key := Arg(next)], rest, next + 1);
      var r := BindInputsFrom(m, inputs, next).value;
      forall i | 0 <= i < |inputs|
        ensures Legalize(inputs[i].name) in r && r[Legalize(inputs[i].name)] == Arg(next + i)
      {
        if i > 0 { assert inputs[i] == rest[i - 1]; }
      }
      forall k | k in r && k !in m
        ensures exists i :: 0 <= i < |inputs| && k == Legalize(inputs[i].name)
      {
        if k != key {
          var i :| 0 <= i < |rest| && k == Legalize(rest[i].name);
          assert inputs[i + 1] == rest[i];
        }
      }
    }
  }

  /**
   * Binding the inputs succeeds exactly when their legalized names are distinct;
   * then input `i` is bound to argument `i` and nothing else is bound.
   */
  lemma InputsBoundPairwise(inputs: seq<ValueInfo>)
    ensures BindInputs(inputs).Success? <==> DistinctLegalNames(inputs)
    ensures BindInputs(inputs).Failure? ==> BindInputs(inputs).error.DuplicateInput?
    ensures BindInputs(inputs).Success? ==>
      var m := BindInputs(inputs).value;
      && (forall i :: 0 <= i < |inputs| ==> Legalize(inputs[i].name) in m && m[Legalize(inputs[i].name)] == Arg(i))
      && (forall k :: k in m ==> exists i :: 0 <= i < |inputs| && k == Legalize(inputs[i].name))
  {
    BindInputsFromSucceeds(map[], inputs, 0);
    if BindInputs(inputs).Success? {
      BindInputsFromContents(map[], inputs, 0);
    }
  }

  lemma BindInputsWellFormed(inputs: seq<ValueInfo>)
    requires BindInputs(inputs).Success?
    ensures TableWellFormed(BindInputs(inputs).value, |inputs|, [])
  {
    InputsBoundPairwise(inputs);
    var m := BindInputs(inputs).value;
    forall k | k in m
      ensures WellFormed(m[k], |inputs|, [])
    {
      var i :| 0 <= i < |inputs| && k == Legalize(inputs[i].name);
    }
  }

  // ---------------------------------------------------------------------------
  // Nodes

  /** The operand list of a node: its inputs whose legalized names are bound, in order. */
  function Resolve(names: seq<string>, m: map<string, Value>): seq<Value>
    decreases |names|
  {
    if names == [] then []
    else (if Legalize(names[0]) in m then [m[Legalize(names[0])]] else []) + Resolve(names[1..], m)
  }

  /** The bindings of the generic path: output `i` to result `i` of operation `j`. */
  function ResultBindings(outputs: seq<string>, j: nat): (bs: seq<(string, Value)>)
    ensures |bs| == |outputs|
  {
    seq(|outputs|, i requires 0 <= i < |outputs| => (Legalize(outputs[i]), OpResult(j, i)))
  }

  function F32Results(n: nat): (ts: seq<TensorType>)
    ensures |ts| == n
  {
    seq(n, _ => UNRANKED_F32)
  }

  predicate IsSpecialOp(opType: string) {
    opType == "Add" || opType == "MatMul" || opType == "Gemm"
  }

  /** `ImportNode`. */
  function ImportNodeSpec(st: Built, node: Node): Result<Built, ImportError> {
    var operands := Resolve(node.inputs, st.table);
    var j := |st.body|;
    if node.opType == "Add" || node.opType == "MatMul" then
      if |operands| < 2 then Failure(TooFewOperands(node.opType, |operands|))
      else if |node.outputs| == 0 then Failure(NoNodeOutput(node.opType))
      else
        var kind := if node.opType == "Add" then AddOp else MatMulOp;
        Success(Built(Emplace(st.table, Legalize(node.outputs[0]), OpResult(j, 0)),
                      st.body + [Op(kind, [operands[0], operands[1]], [UNRANKED_F32])]))
    else if node.opType == "Gemm" then
      if |node.outputs| == 0 then Failure(NoNodeOutput(node.opType))
      else
        var kind := if |operands| == 3 then FullGemmOp else GemmOp;
        Success(Built(Emplace(st.table, Legalize(node.outputs[0]), OpResult(j, 0)),
                      st.body + [Op(kind, operands, [UNRANKED_F32])]))
    else
      Success(Built(BindAll(st.table, ResultBindings(node.outputs, j)),
                    st.body + [Op(GenericOp("frontend." + node.opType), operands, F32Results(|node.outputs|))]))
  }

  /** The node loop of `ImportGraph`, stopping at the first node that fails. */
  function ImportNodesFrom(st: Built, nodes: seq<Node>): Result<Built, ImportError>
    decreases |nodes|
  {
    if nodes == [] then Success(st)
    else
      match ImportNodeSpec(st, nodes[0])
      case Failure(e) => Failure(e)
      case Success(st') => ImportNodesFrom(st', nodes[1..])
  }

  lemma {:induction false} ResolveAppend(a: seq<string>, b: seq<string>, m: map<string, Value>)
    ensures Resolve(a + b, m) == Resolve(a, m) + Resolve(b, m)
    decreases |a|
  {
    if a == [] {
      assert a + b == b;
    } else {
      assert (a + b)[0] == a[0] && (a + b)[1..] == a[1..] + b;
      ResolveAppend(a[1..], b, m);
      var head := if Legalize(a[0]) in m then [m[Legalize(a[0])]] else [];
      assert Resolve(a + b, m) == head + Resolve(a[1..] + b, m);
      assert Resolve(a, m) == head + Resolve(a[1..], m);
    }
  }

  /** Operands are dropped exactly for the unbound names; bound names contribute their values in order. */
  lemma {:induction false} ResolveBound(names: seq<string>, m: map<string, Value>)
    ensures |Resolve(names, m)| <= |names|
    ensures |Resolve(names, m)| == |names| <==> forall i :: 0 <= i < |names| ==> Legalize(names[i]) in m
    ensures (forall i :: 0 <= i < |names| ==> Legalize(names[i]) in m) ==>
      forall i :: 0 <= i < |names| ==> Resolve(names, m)[i] == m[Legalize(names[i])]
    decreases |names|
  {
    if names != [] {
      var rest := names[1..];
      ResolveBound(rest, m);
      if forall i :: 0 <= i < |rest| ==> Legalize(rest[i]) in m {
        forall i | 0 <= i < |names|
          ensures Legalize(names[i]) in m || Legalize(names[0]) !in m
        {
          if i > 0 { assert names[i] == rest[i - 1]; }
        }
      } else {
        var i :| 0 <= i < |rest| && Legalize(rest[i]) !in m;
        assert names[i + 1] == rest[i];
      }
      if forall i :: 0 <= i < |names| ==> Legalize(names[i]) in m {
        forall i | 0 <= i < |rest|
          ensures Legalize(rest[i]) in m
        {
          assert rest[i] == names[i + 1];
        }
      }
    }
  }

  /** Every operand is the value bound to one of the node's input names. */
  lemma {:induction false} ResolveMembers(names: seq<string>, m: map<string, Value>)
    ensures forall v :: v in Resolve(names, m) ==>
      exists i :: 0 <= i < |names| && Legalize(names[i]) in m && m[Legalize(names[i])] == v
    decreases |names|
  {
    if names != [] {
      var rest := names[1..];
      ResolveMembers(rest, m);
      forall v | v in Resolve(names, m)
        ensures exists i :: 0 <= i < |names| && Legalize(names[i]) in m && m[Legalize(names[i])] == v
      {
        if Legalize(names[0]) in m && v == m[Legalize(names[0])] {
        } else {
          assert v in Resolve(rest, m);
          var i :| 0 <= i < |rest| && Legalize(rest[i]) in m && m[Legalize(rest[i])] == v;
          assert names[i + 1] == rest[i];
        }
      }
    }
  }

  lemma {:induction false} ResolveWellFormed(names: seq<string>, m: map<string, Value>, numArgs: nat, body: seq<Op>)
    requires TableWellFormed(m, numArgs, body)
    ensures forall i :: 0 <= i < |Resolve(names, m)| ==> WellFormed(Resolve(names, m)[i], numArgs, body)
    decreases |names|
  {
    if names != [] {
      ResolveWellFormed(names[1..], m, numArgs, body);
    }
  }

  /** One node appends one operation and binds only values of operations that exist. */
  lemma NodeSpecWellFormed(st: Built, node: Node, numArgs: nat)
    requires TableWellFormed(st.table, numArgs, st.body)
    requires ImportNodeSpec(st, node).Success?
    ensures var r := ImportNodeSpec(st, node).value;
      && |r.body| == |st.body| + 1 && r.body[..|st.body|] == st.body
      && TableWellFormed(r.table, numArgs, r.body)
  {
    var r := ImportNodeSpec(st, node).value;
    var j := |st.body|;
    assert r.body[..j] == st.body;
    forall k | k in r.table
      ensures WellFormed(r.table[k], numArgs, r.body)
    {
      if k in st.table {
        assert r.table[k] == st.table[k] by {
          if !IsSpecialOp(node.opType) {
            BindAllFirstWins(st.table, ResultBindings(node.outputs, j), k);
          }
        }
        WellFormedGrows(st.table[k], seq(numArgs, _ => UNRANKED_F32), st.body, [r.body[j]]);
      } else if !IsSpecialOp(node.opType) {
        BindAllValues(st.table, ResultBindings(node.outputs, j), k);
      }
    }
  }

  lemma {:induction false} NodesFromWellFormed(st: Built, nodes: seq<Node>, numArgs: nat)
    requires TableWellFormed(st.table, numArgs, st.body)
    requires ImportNodesFrom(st, nodes).Success?
    ensures var r := ImportNodesFrom(st, nodes).value;
      && |st.body| <= |r.body| && r.body[..|st.body|] == st.body
      && TableWellFormed(r.table, numArgs, r.body)
    decreases |nodes|
  {
    if nodes != [] {
      NodeSpecWellFormed(st, nodes[0], numArgs);
      var st' := ImportNodeSpec(st, nodes[0]).value;
      NodesFromWellFormed(st', nodes[1..], numArgs);
      var r := ImportNodesFrom(st, nodes).value;
      assert r.body[..|st.body|] == r.body[..|st'.body|][..|st.body|];
    }
  }

  /**
   * `Add` and `MatMul` need two resolved operands and an output; they take the
   * first two operands, yield one unranked f32 result and bind only output 0.
   */
  lemma BinaryNodeDispatch(st: Built, node: Node)
    requires node.opType == "Add" || node.opType == "MatMul"
    ensures var operands := Resolve(node.inputs, st.table);
      ImportNodeSpec(st, node).Success? <==> |operands| >= 2 && |node.outputs| > 0
    ensures var operands := Resolve(node.inputs, st.table);
      |operands| < 2 ==> ImportNodeSpec(st, node) == Failure(TooFewOperands(node.opType, |operands|))
    ensures ImportNodeSpec(st, node).Success? ==>
      var r := ImportNodeSpec(st, node).value;
      var operands := Resolve(node.inputs, st.table);
      var j := |st.body|;
      && |r.body| == j + 1 && r.body[..j] == st.body
      && r.body[j].kind == (if node.opType == "Add" then AddOp else MatMulOp)
      && r.body[j].operands == operands[..2]
      && r.body[j].results == [Unranked(F32)]
  {
    var operands := Resolve(node.inputs, st.table);
    if |operands| >= 2 {
      assert [operands[0], operands[1]] == operands[..2];
    }
  }

  /** `Gemm` with exactly three operands becomes `FullGemm`, otherwise the variadic `Gemm`. */
  lemma GemmNodeDispatch(st: Built, node: Node)
    requires node.opType == "Gemm"
    ensures ImportNodeSpec(st, node).Success? <==> |node.outputs| > 0
    ensures ImportNodeSpec(st, node).Success? ==>
      var r := ImportNodeSpec(st, node).value;
      var operands := Resolve(node.inputs, st.table);
      var j := |st.body|;
      && |r.body| == j + 1 && r.body[..j] == st.body
      && r.body[j].kind == (if |operands| == 3 then FullGemmOp else GemmOp)
      && r.body[j].operands == operands
      && r.body[j].results == [Unranked(F32)]
  {
  }

  /** `Add`, `MatMul` and `Gemm` bind output 0, first-wins, and no other name. */
  lemma SpecialNodeBindsFirstOutput(st: Built, node: Node)
    requires IsSpecialOp(node.opType)
    requires ImportNodeSpec(st, node).Success?
    ensures |node.outputs| > 0
    ensures var r := ImportNodeSpec(st, node).value;
      var key := Legalize(node.outputs[0]);
      && r.table.Keys == st.table.Keys + {key}
      && (forall k :: k in st.table ==> r.table[k] == st.table[k])
      && (key !in st.table ==> r.table[key] == OpResult(|st.body|, 0))
  {
  }

  /** No earlier name legalizes to the same name as `names[i]`. */
  predicate IsFirstOccurrence(names: seq<string>, i: nat)
    requires i < |names|
  {
    forall l :: 0 <= l < i ==> Legalize(names[l]) != Legalize(names[i])
  }

  /**
   * Any other op type becomes `frontend.<op type>` with the resolved operands and
   * one unranked f32 result per output; output `i`, unless its legalized name is
   * already bound or repeats an earlier output's, is bound to result `i`.
   */
  lemma GenericNodeDispatch(st: Built, node: Node)
    requires !IsSpecialOp(node.opType)
    ensures ImportNodeSpec(st, node).Success?
    ensures var r := ImportNodeSpec(st, node).value;
      var j := |st.body|;
      && |r.body| == j + 1 && r.body[..j] == st.body
      && r.body[j].kind == GenericOp("frontend." + node.opType)
      && r.body[j].operands == Resolve(node.inputs, st.table)
      && |r.body[j].results| == |node.outputs|
      && (forall i :: 0 <= i < |node.outputs| ==> r.body[j].results[i] == Unranked(F32))
      && (forall k :: k in st.table ==> k in r.table && r.table[k] == st.table[k])
      && (forall k :: k in r.table && k !in st.table ==>
            exists i :: 0 <= i < |node.outputs| && k == Legalize(node.outputs[i]))
      && (forall i :: 0 <= i < |node.outputs| ==> Legalize(node.outputs[i]) in r.table)
      && (forall i :: 0 <= i < |node.outputs| && Legalize(node.outputs[i]) !in st.table && IsFirstOccurrence(node.outputs, i)
            ==> r.table[Legalize(node.outputs[i])] == OpResult(j, i))
  {
    var r := ImportNodeSpec(st, node).value;
    var j := |st.body|;
    var bs := ResultBindings(node.outputs, j);
    forall k | k in st.table
      ensures k in r.table && r.table[k] == st.table[k]
    {
      BindAllFirstWins(st.table, bs, k);
    }
    forall k | k in r.table && k !in st.table
      ensures exists i :: 0 <= i < |node.outputs| && k == Legalize(node.outputs[i])
    {
      BindAllFirstWins(st.table, bs, k);
      var i :| 0 <= i < |bs| && bs[i].0 == k;
    }
    forall i | 0 <= i < |node.outputs|
      ensures Legalize(node.outputs[i]) in r.table
    {
      var k := Legalize(node.outputs[i]);
      BindAllFirstWins(st.table, bs, k);
      assert bs[i].0 == k;
    }
    forall i | 0 <= i < |node.outputs| && Legalize(node.outputs[i]) !in st.table && IsFirstOccurrence(node.outputs, i)
      ensures r.table[Legalize(node.outputs[i])] == OpResult(j, i)
    {
      var k := Legalize(node.outputs[i]);
      BindAllFirstWins(st.table, bs, k);
      assert IsFirstBinding(bs, k, i);
    }
  }

  // ---------------------------------------------------------------------------
  // Outputs and the whole graph

  /** The output loop of `ImportGraph`: types and values of the outputs, in order. */
  function CollectOutputsFrom(outputs: seq<ValueInfo>, m: map<string, Value>, argTypes: seq<TensorType>,
                              body: seq<Op>, types: seq<TensorType>, vals: seq<Value>)
    : Result<(seq<TensorType>, seq<Value>), ImportError>
    requires TableWellFormed(m, |argTypes|, body)
    decreases |outputs|
  {
    if outputs == [] then Success((types, vals))
    else
      var key := Legalize(outputs[0].name);
      if key !in m then Failure(OutputNotFound(outputs[0].name))
      else
        var v := m[key];
        CollectOutputsFrom(outputs[1..], m, argTypes, body, types + [TypeOf(v, argTypes, body)], vals + [v])
  }

  function CollectOutputs(outputs: seq<ValueInfo>, m: map<string, Value>, argTypes: seq<TensorType>, body: seq<Op>)
    : Result<(seq<TensorType>, seq<Value>), ImportError>
    requires TableWellFormed(m, |argTypes|, body)
  {
    CollectOutputsFrom(outputs, m, argTypes, body, [], [])
  }

  /** The symbol table and block after the inputs are bound and every node is imported. */
  function NodesState(g: Graph): Result<Built, ImportError> {
    match BindInputs(g.inputs)
    case Failure(e) => Failure(e)
    case Success(m0) => ImportNodesFrom(Built(m0, []), g.nodes)
  }

  lemma NodesStateWellFormed(g: Graph)
    requires NodesState(g).Success?
    ensures TableWellFormed(NodesState(g).value.table, |g.inputs|, NodesState(g).value.body)
  {
    BindInputsWellFormed(g.inputs);
    NodesFromWellFormed(Built(BindInputs(g.inputs).value, []), g.nodes, |g.inputs|);
  }

  /** `ImportGraph`: the function `main`, its entry block arguments and its body. */
  function ImportGraphSpec(g: Graph): Result<Imported, ImportError> {
    var argTypes := InputTypes(g.inputs);
    match NodesState(g)
    case Failure(e) => Failure(e)
    case Success(st) =>
      NodesStateWellFormed(g);
      match CollectOutputs(g.outputs, st.table, argTypes, st.body)
      case Failure(e) => Failure(e)
      case Success(out) =>
        Success(Imported(Func("main", FunctionType(argTypes, out.0)), argTypes,
                         st.body + [Op(ReturnOp, out.1, [])]))
  }

  lemma {:induction false} CollectOutputsFromCorrect(outputs: seq<ValueInfo>, m: map<string, Value>,
                                                     argTypes: seq<TensorType>, body: seq<Op>,
                                                     types: seq<TensorType>, vals: seq<Value>)
    requires TableWellFormed(m, |argTypes|, body) && |types| == |vals|
    ensures CollectOutputsFrom(outputs, m, argTypes, body, types, vals).Success? <==>
      forall i :: 0 <= i < |outputs| ==> Legalize(outputs[i].name) in m
    ensures CollectOutputsFrom(outputs, m, argTypes, body, types, vals).Failure? ==>
      CollectOutputsFrom(outputs, m, argTypes, body, types, vals).error.OutputNotFound?
    ensures CollectOutputsFrom(outputs, m, argTypes, body, types, vals).Success? ==>
      var r := CollectOutputsFrom(outputs, m, argTypes, body, types, vals).value;
      && |r.0| == |r.1| == |vals| + |outputs|
      && r.0[..|types|] == types && r.1[..|vals|] == vals
      && forall i :: 0 <= i < |outputs| ==>
           && r.1[|vals| + i] == m[Legalize(outputs[i].name)]
           && WellFormed(r.1[|vals| + i], |argTypes|, body)
           && r.0[|types| + i] == TypeOf(r.1[|vals| + i], argTypes, body)
    decreases |outputs|
  {
    if outputs != [] {
      var key := Legalize(outputs[0].name);
      var rest := outputs[1..];
      if key in m {
        var v := m[key];
        var types' := types + [TypeOf(v, argTypes, body)];
        var vals' := vals + [v];
        CollectOutputsFromCorrect(rest, m, argTypes, body, types', vals');
        var r := CollectOutputsFrom(outputs, m, argTypes, body, types, vals);
        if r.Success? {
          var p := r.value;
          assert p.0[..|types|] == p.0[..|types'|][..|types|];
          assert p.1[..|vals|] == p.1[..|vals'|][..|vals|];
          forall i | 0 <= i < |outputs|
            ensures p.1[|vals| + i] == m[Legalize(outputs[i].name)]
            ensures WellFormed(p.1[|vals| + i], |argTypes|, body)
            ensures p.0[|types| + i] == TypeOf(p.1[|vals| + i], argTypes, body)
          {
            if i == 0 {
              assert p.1[|vals|] == p.1[..|vals'|][|vals|];
              assert p.0[|types|] == p.0[..|types'|][|types|];
            } else {
              assert rest[i - 1] == outputs[i];
            }
          }
        } else {
          var i :| 0 <= i < |rest| && Legalize(rest[i].name) !in m;
          assert outputs[i + 1] == rest[i];
        }
        if forall i :: 0 <= i < |outputs| ==> Legalize(outputs[i].name) in m {
          forall i | 0 <= i < |rest|
            ensures Legalize(rest[i].name) in m
          {
            assert rest[i] == outputs[i + 1];
          }
        }
      }
    }
  }

  /** The signature has one parameter per graph input, in order, and the entry block matches it. */
  lemma ImportGraphSignature(g: Graph)
    requires ImportGraphSpec(g).Success?
    ensures var imp := ImportGraphSpec(g).value;
      && imp.func.name == "main"
      && |imp.func.funcType.inputs| == |g.inputs|
      && (forall i :: 0 <= i < |g.inputs| ==> imp.func.funcType.inputs[i] == InputTensorType(g.inputs[i]))
      && imp.entryArgs == imp.func.funcType.inputs
  {
  }

  /** Two inputs with the same legalized name stop the import. */
  lemma ImportGraphRejectsDuplicateInputs(g: Graph)
    requires !DistinctLegalNames(g.inputs)
    ensures ImportGraphSpec(g).Failure? && ImportGraphSpec(g).error.DuplicateInput?
  {
    InputsBoundPairwise(g.inputs);
  }

  /**
   * Once the nodes are imported, the import completes exactly when every output's
   * legalized name is bound. The return operands are then the bound values in
   * graph output order, the result types are their types, and the return is the
   * last operation of the body.
   */
  lemma ImportGraphOutputs(g: Graph)
    requires NodesState(g).Success?
    ensures var st := NodesState(g).value;
      ImportGraphSpec(g).Success? <==> forall i :: 0 <= i < |g.outputs| ==> Legalize(g.outputs[i].name) in st.table
    ensures ImportGraphSpec(g).Failure? ==> ImportGraphSpec(g).error.OutputNotFound?
    ensures ImportGraphSpec(g).Success? ==>
      var st := NodesState(g).value;
      var imp := ImportGraphSpec(g).value;
      var ret := imp.body[|imp.body| - 1];
      && |imp.body| == |st.body| + 1 && imp.body[..|st.body|] == st.body
      && ret.kind == ReturnOp && ret.results == []
      && |ret.operands| == |g.outputs| == |imp.func.funcType.results|
      && forall i :: 0 <= i < |g.outputs| ==>
           && ret.operands[i] == st.table[Legalize(g.outputs[i].name)]
           && WellFormed(ret.operands[i], |imp.entryArgs|, st.body)
           && imp.func.funcType.results[i] == TypeOf(ret.operands[i], imp.entryArgs, st.body)
  {
    var st := NodesState(g).value;
    NodesStateWellFormed(g);
    CollectOutputsFromCorrect(g.outputs, st.table, InputTypes(g.inputs), st.body, [], []);
    if ImportGraphSpec(g).Success? {
      var imp := ImportGraphSpec(g).value;
      assert imp.body[..|st.body|] == st.body;
    }
  }
}
