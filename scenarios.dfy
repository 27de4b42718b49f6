/** Concrete imports worked out against the specification functions. */
module Scenarios {
  import opened Wrappers
  import opened Legalizer
  import opened Ir
  import opened Onnx
  import opened Symbols
  import opened ImportSpec

  /** A name with every rewritten character and a leading digit. */
  lemma LegalizeExample()
    ensures Legalize("1:a/b-c") == "n1_colon_a_b_c"
  {
    SlashAndDashExample();
    ColonExample();
  }

  /** The two character rewrites of `1:a/b-c`. */
  lemma SlashAndDashExample()
    ensures SubstChar(SubstChar("1:a/b-c", '/', '_'), '-', '_') == "1:a_b_c"
  {
    assert SubstChar("1:a/b-c", '/', '_') == "1:a_b-c";
  }

  /** The single `:` of `1:a_b_c` becomes `_colon_`. */
  lemma ColonExample()
    ensures SubstAll("1:a_b_c", ":", "_colon_") == "1_colon_a_b_c"
  {
    var t := "1:a_b_c";
    assert !MatchAt(t, ":", 0) by { assert t[0..1] == "1"; }
    assert MatchAt(t[1..], ":", 0) by { assert t[1..][0..1] == ":"; }
    var u := t[1..][1..];
    assert u == "a_b_c";
    forall i | 0 <= i < |u|
      ensures !MatchAt(u, ":", i)
    {
      assert u[i..i + 1] == [u[i]];
    }
    SubstAllNoMatch(u, ":", "_colon_");
  }

  /** Replacing `x` by `yx` does not rescan the inserted text: `xx` becomes `yxyx`. */
  lemma NoRescanExample()
    ensures SubstAll("xx", "x", "yx") == "yxyx"
  {
    var s := "xx";
    assert MatchAt(s, "x", 0) && s[1..] == "x";
    assert MatchAt(s[1..], "x", 0) && s[1..][1..] == [];
  }

  /** Binding a single input named `x` binds `x` to argument 0. */
  lemma BindSingleInput(input: ValueInfo)
    requires input.name == "x"
    ensures BindInputs([input]) == Success(map["x" := Arg(0)])
  {
    LegalizeKeepsLegal("x");
    var empty: map<string, Value> := map[];
    assert [input][1..] == [];
    assert BindInputsFrom(empty, [input], 0) == BindInputsFrom(empty["x" := Arg(0)], [], 1);
  }

  /** The block and table after importing `Add(x, x) -> y` with `x` bound to argument 0. */
  lemma AddNodeStep()
    ensures ImportNodesFrom(Built(map["x" := Arg(0)], []), [Node("Add", ["x", "x"], ["y"])])
         == Success(Built(map["x" := Arg(0), "y" := OpResult(0, 0)],
                          [Op(AddOp, [Arg(0), Arg(0)], [Unranked(F32)])]))
  {
    LegalizeKeepsLegal("x");
    LegalizeKeepsLegal("y");
    var m0 := map["x" := Arg(0)];
    assert ["x", "x"][1..] == ["x"] && ["x"][1..] == [];
    assert Resolve(["x", "x"], m0) == [Arg(0), Arg(0)];
    var add := Op(AddOp, [Arg(0), Arg(0)], [Unranked(F32)]);
    var m1 := m0["y" := OpResult(0, 0)];
    assert Emplace(m0, Legalize("y"), OpResult(0, 0)) == m1;
    var empty: seq<Op> := [];
    assert empty + [add] == [add];
    var node := Node("Add", ["x", "x"], ["y"]);
    assert ImportNodeSpec(Built(m0, empty), node) == Success(Built(m1, [add]));
    assert [node][0] == node && [node][1..] == [];
  }

  /** The block and table after importing `Frobnicate(x) -> z` with `x` bound to argument 0. */
  lemma UnknownOpNodeStep()
    ensures ImportNodesFrom(Built(map["x" := Arg(0)], []), [Node("Frobnicate", ["x"], ["z"])])
         == Success(Built(map["x" := Arg(0), "z" := OpResult(0, 0)],
                          [Op(GenericOp("frontend.Frobnicate"), [Arg(0)], [Unranked(F32)])]))
  {
    LegalizeKeepsLegal("x");
    LegalizeKeepsLegal("z");
    var m0 := map["x" := Arg(0)];
    assert ["x"][1..] == [];
    assert Resolve(["x"], m0) == [Arg(0)];
    var bindings := [("z", OpResult(0, 0))];
    assert ResultBindings(["z"], 0) == bindings;
    assert F32Results(1) == [Unranked(F32)];
    var m1 := m0["z" := OpResult(0, 0)];
    assert bindings[1..] == [];
    assert BindAll(m0, bindings) == BindAll(m1, []);
    var op := Op(GenericOp("frontend.Frobnicate"), [Arg(0)], [Unranked(F32)]);
    var empty: seq<Op> := [];
    assert empty + [op] == [op];
    var node := Node("Frobnicate", ["x"], ["z"]);
    assert "frontend." + node.opType == "frontend.Frobnicate";
    assert node.opType != "Add" && node.opType != "MatMul" && node.opType != "Gemm" by {
      assert node.opType[0] == 'F';
    }
    assert ImportNodeSpec(Built(m0, empty), node) == Success(Built(m1, [op]));
    assert [node][0] == node && [node][1..] == [];
  }

  /** Returning one output whose name is bound to result 0 of the only operation. */
  lemma SingleOutputStep(output: ValueInfo, m: map<string, Value>, argTypes: seq<TensorType>, op: Op)
    requires IsLegalName(output.name) && output.name in m && m[output.name] == OpResult(0, 0)
    requires TableWellFormed(m, |argTypes|, [op]) && op.results == [Unranked(F32)]
    ensures CollectOutputs([output], m, argTypes, [op]) == Success(([Unranked(F32)], [OpResult(0, 0)]))
  {
    LegalizeKeepsLegal(output.name);
    assert TypeOf(OpResult(0, 0), argTypes, [op]) == Unranked(F32);
    var noTypes: seq<TensorType> := [];
    var noVals: seq<Value> := [];
    assert noTypes + [Unranked(F32)] == [Unranked(F32)];
    assert noVals + [OpResult(0, 0)] == [OpResult(0, 0)];
    assert [output][0] == output && [output][1..] == [];
    assert CollectOutputsFrom([output], m, argTypes, [op], noTypes, noVals)
        == CollectOutputsFrom([], m, argTypes, [op], [Unranked(F32)], [OpResult(0, 0)]);
  }

  /** One input `x` of shape [1,3], one `Add(x, x) -> y`, output `y`. */
  lemma AddGraph()
    ensures ImportGraphSpec(Graph([ValueInfo("x", Float, [1, 3])],
                                  [Node("Add", ["x", "x"], ["y"])],
                                  [ValueInfo("y", Float, [])]))
         == Success(Imported(Func("main", FunctionType([Ranked([1, 3], F32)], [Unranked(F32)])),
                             [Ranked([1, 3], F32)],
                             [Op(AddOp, [Arg(0), Arg(0)], [Unranked(F32)]),
                              Op(ReturnOp, [OpResult(0, 0)], [])]))
  {
    var input := ValueInfo("x", Float, [1, 3]);
    var output := ValueInfo("y", Float, []);
    var g := Graph([input], [Node("Add", ["x", "x"], ["y"])], [output]);
    var argTypes := [Ranked([1, 3], F32)];
    assert InputTensorType(input) == Ranked([1, 3], F32);
    assert InputTypes(g.inputs) == argTypes;
    BindSingleInput(input);
    AddNodeStep();
    var add := Op(AddOp, [Arg(0), Arg(0)], [Unranked(F32)]);
    var m1 := map["x" := Arg(0), "y" := OpResult(0, 0)];
    assert NodesState(g) == Success(Built(m1, [add]));
    assert TableWellFormed(m1, 1, [add]);
    SingleOutputStep(output, m1, argTypes, add);
    assert [add] + [Op(ReturnOp, [OpResult(0, 0)], [])]
        == [add, Op(ReturnOp, [OpResult(0, 0)], [])];
  }

  /** An unknown op type goes through the generic path and its output can be returned. */
  lemma UnknownOpGraph()
    ensures ImportGraphSpec(Graph([ValueInfo("x", Float, [2])],
                                  [Node("Frobnicate", ["x"], ["z"])],
                                  [ValueInfo("z", Float, [])]))
         == Success(Imported(Func("main", FunctionType([Ranked([2], F32)], [Unranked(F32)])),
                             [Ranked([2], F32)],
                             [Op(GenericOp("frontend.Frobnicate"), [Arg(0)], [Unranked(F32)]),
                              Op(ReturnOp, [OpResult(0, 0)], [])]))
  {
    var input := ValueInfo("x", Float, [2]);
    var output := ValueInfo("z", Float, []);
    var g := Graph([input], [Node("Frobnicate", ["x"], ["z"])], [output]);
    var argTypes := [Ranked([2], F32)];
    assert InputTensorType(input) == Ranked([2], F32);
    assert InputTypes(g.inputs) == argTypes;
    BindSingleInput(input);
    UnknownOpNodeStep();
    var op := Op(GenericOp("frontend.Frobnicate"), [Arg(0)], [Unranked(F32)]);
    var m1 := map["x" := Arg(0), "z" := OpResult(0, 0)];
    assert NodesState(g) == Success(Built(m1, [op]));
    assert TableWellFormed(m1, 1, [op]);
    SingleOutputStep(output, m1, argTypes, op);
    assert [op] + [Op(ReturnOp, [OpResult(0, 0)], [])]
        == [op, Op(ReturnOp, [OpResult(0, 0)], [])];
  }

  /** An unbound operand name is dropped, so `Add(x, w)` with `w` unknown has one operand and stops. */
  lemma DroppedOperandGraph()
    ensures ImportGraphSpec(Graph([ValueInfo("x", Float, [2])],
                                  [Node("Add", ["x", "w"], ["y"])],
                                  [ValueInfo("y", Float, [])]))
         == Failure(TooFewOperands("Add", 1))
  {
    LegalizeKeepsLegal("x");
    LegalizeKeepsLegal("w");
    var m0 := map["x" := Arg(0)];
    BindSingleInput(ValueInfo("x", Float, [2]));
    assert ["x", "w"][1..] == ["w"] && ["w"][1..] == [];
    assert Resolve(["x", "w"], m0) == [Arg(0)];
    var node := Node("Add", ["x", "w"], ["y"]);
    assert ImportNodeSpec(Built(m0, []), node) == Failure(TooFewOperands("Add", 1));
  }
}
