/**
 * `OnnxOnnfSymbolMapping`: the importer's symbol table, a `std::map` from
 * legalized ONNX tensor names to MLIR values with first-wins `emplace`.
 */
module Symbols {
  import opened Wrappers
  import opened Legalizer
  import opened Ir

  /** `std::map::emplace`: inserts only when the key is absent; a bound key keeps its value. */
  function Emplace(m: map<string, Value>, key: string, v: Value): (r: map<string, Value>)
    ensures r.Keys == m.Keys + {key}
    ensures forall k :: k in m ==> r[k] == m[k]
    ensures key !in m ==> r[key] == v
  {
    if key in m then m else m[key := v]
  }

  /** A sequence of `emplace` calls, performed in order. */
  function BindAll(m: map<string, Value>, bindings: seq<(string, Value)>): map<string, Value>
    decreases |bindings|
  {
    if bindings == [] then m
    else BindAll(Emplace(m, bindings[0].0, bindings[0].1), bindings[1..])
  }

  /** Binding `i` is the first one that names `key`. */
  predicate IsFirstBinding(bindings: seq<(string, Value)>, key: string, i: nat) {
    i < |bindings| && bindings[i].0 == key && forall l :: 0 <= l < i ==> bindings[l].0 != key
  }

  /**
   * First-wins: after a sequence of bindings a key already bound keeps its value;
   * an unbound key is bound exactly when some binding names it, and then to the
   * value of the first binding that does.
   */
  lemma {:induction false} BindAllFirstWins(m: map<string, Value>, bindings: seq<(string, Value)>, key: string)
    ensures key in m ==> key in BindAll(m, bindings) && BindAll(m, bindings)[key] == m[key]
    ensures key !in m ==>
      (key in BindAll(m, bindings) <==> exists i :: 0 <= i < |bindings| && bindings[i].0 == key)
    ensures forall i: nat :: key !in m && IsFirstBinding(bindings, key, i) ==> BindAll(m, bindings)[key] == bindings[i].1
    decreases |bindings|
  {
    if bindings != [] {
      var m' := Emplace(m, bindings[0].0, bindings[0].1);
      var rest := bindings[1..];
      BindAllFirstWins(m', rest, key);
      if key !in m && key !in m' {
        if exists i :: 0 <= i < |bindings| && bindings[i].0 == key {
          var i :| 0 <= i < |bindings| && bindings[i].0 == key;
          assert rest[i - 1].0 == key;
        }
      }
      forall i: nat | key !in m && IsFirstBinding(bindings, key, i)
        ensures BindAll(m, bindings)[key] == bindings[i].1
      {
        if i > 0 {
          assert IsFirstBinding(rest, key, i - 1);
        }
      }
    }
  }

  /** Every value bound after a sequence of bindings was bound before or is one of the bindings. */
  lemma {:induction false} BindAllValues(m: map<string, Value>, bindings: seq<(string, Value)>, key: string)
    requires key in BindAll(m, bindings)
    ensures (key in m && BindAll(m, bindings)[key] == m[key])
      || exists i :: 0 <= i < |bindings| && bindings[i] == (key, BindAll(m, bindings)[key])
    decreases |bindings|
  {
    if bindings != [] {
      var m' := Emplace(m, bindings[0].0, bindings[0].1);
      BindAllValues(m', bindings[1..], key);
      var v := BindAll(m, bindings)[key];
      if exists i :: 0 <= i < |bindings[1..]| && bindings[1..][i] == (key, v) {
        var i :| 0 <= i < |bindings[1..]| && bindings[1..][i] == (key, v);
        assert bindings[i + 1] == (key, v);
      }
    }
  }

  /**
   * The importer passes already-legalized names to the mapping, which legalizes
   * them again; since legalization is idempotent, the key `ContainKey` tests is
   * the key `GetTensorByOnnxName` reads and `AddMapping` writes.
   */
  lemma RelegalizedKeysAgree(m: map<string, Value>, raw: string, v: Value)
    ensures var key := Legalize(raw);
      && (key in m <==> Legalize(key) in m)
      && (key in m ==> m[Legalize(key)] == m[key])
      && Emplace(m, Legalize(key), v) == Emplace(m, key, v)
  {
    LegalizeIdempotent(raw);
  }

  class SymbolMapping {
    /** `onnx_name2onnf_tensor`. */
    var table: map<string, Value>

    constructor ()
      ensures table == map[]
    {
      table := map[];
    }

    /** `GetTensorByOnnxName`: `map::at` on the legalized name; `None` is the `out_of_range` it throws. */
    method GetTensorByOnnxName(name: string) returns (v: Option<Value>)
      ensures v.Some? <==> Legalize(name) in table
      ensures v.Some? ==> v.value == table[Legalize(name)]
    {
      var key := LegalizeName(name);
      if key in table {
        v := Some(table[key]);
      } else {
        v := None;
      }
    }

    /** `AddMapping`: `emplace` under the legalized name, so a name already bound keeps its value. */
    method AddMapping(name: string, tensor: Value)
      modifies this
      ensures table == Emplace(old(table), Legalize(name), tensor)
    {
      var key := LegalizeName(name);
      table := Emplace(table, key, tensor);
    }

    /** `ContainKey`: tests the name as given, without legalizing it. */
    method ContainKey(name: string) returns (found: bool)
      ensures found <==> name in table
    {
      found := name in table;
    }
  }
}
