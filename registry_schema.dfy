/**
 * The interface check `LicenseOracle._validate_registry` runs once, when an
 * oracle is built: the registry's ABI must declare four functions with exact
 * input and output type lists.
 */
module RegistrySchema {
  import opened Wrappers

  /** One ABI entry, reduced to its `type`, its `name` and the `type` of each input and output. */
  datatype AbiEntry = AbiEntry(kind: string, name: string, inputs: seq<string>, outputs: seq<string>)

  /** A required function and its expected parameter and return types. */
  datatype FunctionSpec = FunctionSpec(name: string, inputs: seq<string>, outputs: seq<string>)

  /** The `ValueError`s `_validate_registry` raises, by function name. */
  datatype SchemaError =
    | MissingFunction(name: string)
    | IncorrectInputs(name: string)
    | IncorrectOutputs(name: string)

  /** The required functions, in the order they are checked. */
  const RequiredFunctions: seq<FunctionSpec> := [
    FunctionSpec("licenses", ["bytes32"], ["address", "string", "uint256", "bool"]),
    FunctionSpec("registerImage", ["bytes32", "string"], []),
    FunctionSpec("revokeImage", ["bytes32"], []),
    FunctionSpec("isRevokable", ["bytes32"], ["bool"])
  ]

  predicate IsFunction(e: AbiEntry) {
    e.kind == "function"
  }

  /**
   * The name-to-entry table built from the ABI: only entries of type
   * "function" are kept, and a later entry replaces an earlier one of the
   * same name.
   */
  function FunctionTable(abi: seq<AbiEntry>): (t: map<string, AbiEntry>)
    ensures forall name :: name in t ==> IsFunction(t[name]) && t[name].name == name
  {
    if abi == [] then map[]
    else
      var table := FunctionTable(abi[..|abi| - 1]);
      var e := abi[|abi| - 1];
      if IsFunction(e) then table[e.name := e] else table
  }

  /** Entry `i` is the last function entry called `name`. */
  ghost predicate IsLastFunctionNamed(abi: seq<AbiEntry>, i: int, name: string) {
    && 0 <= i < |abi|
    && IsFunction(abi[i]) && abi[i].name == name
    && forall j :: i < j < |abi| ==> !(IsFunction(abi[j]) && abi[j].name == name)
  }

  /** The table holds a name exactly when some function entry has it. */
  lemma {:induction false} FunctionTableKeys(abi: seq<AbiEntry>, name: string)
    ensures name in FunctionTable(abi) <==> exists i :: 0 <= i < |abi| && IsFunction(abi[i]) && abi[i].name == name
  {
    if abi != [] {
      var n := |abi| - 1;
      var init := abi[..n];
      FunctionTableKeys(init, name);
      if exists i :: 0 <= i < |abi| && IsFunction(abi[i]) && abi[i].name == name {
        var i :| 0 <= i < |abi| && IsFunction(abi[i]) && abi[i].name == name;
        if i < n {
          assert init[i] == abi[i];
        }
      }
    }
  }

  /** The entry the table holds for a name is the last function entry with that name. */
  lemma {:induction false} FunctionTableIsLastEntry(abi: seq<AbiEntry>, name: string)
    requires name in FunctionTable(abi)
    ensures exists i :: IsLastFunctionNamed(abi, i, name) && FunctionTable(abi)[name] == abi[i]
  {
    var n := |abi| - 1;
    var init := abi[..n];
    if IsFunction(abi[n]) && abi[n].name == name {
      assert IsLastFunctionNamed(abi, n, name);
    } else {
      FunctionTableIsLastEntry(init, name);
      var i :| IsLastFunctionNamed(init, i, name) && FunctionTable(init)[name] == init[i];
      assert IsLastFunctionNamed(abi, i, name);
    }
  }

  /** The table has an entry for `spec` with exactly the expected types. */
  predicate Conforms(table: map<string, AbiEntry>, spec: FunctionSpec) {
    spec.name in table && table[spec.name].inputs == spec.inputs && table[spec.name].outputs == spec.outputs
  }

  /** The checks of one required function, in source order: presence, inputs, outputs. */
  function CheckFunction(table: map<string, AbiEntry>, spec: FunctionSpec): (r: Option<SchemaError>)
    ensures r.None? <==> Conforms(table, spec)
    ensures r.Some? ==> r.value.name == spec.name
  {
    if spec.name !in table then Some(MissingFunction(spec.name))
    else if table[spec.name].inputs != spec.inputs then Some(IncorrectInputs(spec.name))
    else if table[spec.name].outputs != spec.outputs then Some(IncorrectOutputs(spec.name))
    else None
  }

  /**
   * Checks the specs one after another and stops at the first failure: the
   * result is `Ok` exactly when every spec conforms, and otherwise names the
   * first spec that does not.
   */
  function CheckAll(table: map<string, AbiEntry>, specs: seq<FunctionSpec>): (r: Result<(), SchemaError>)
    ensures r.Ok? <==> forall k :: 0 <= k < |specs| ==> Conforms(table, specs[k])
    ensures r.Err? ==> exists k ::
      && 0 <= k < |specs|
      && (forall j :: 0 <= j < k ==> Conforms(table, specs[j]))
      && CheckFunction(table, specs[k]) == Some(r.error)
  {
    if specs == [] then Ok(())
    else
      match CheckFunction(table, specs[0])
      case Some(e) => Err(e)
      case None =>
        var rest := CheckAll(table, specs[1..]);
        if rest.Err? then
          var k :| && 0 <= k < |specs[1..]|
                   && (forall j :: 0 <= j < k ==> Conforms(table, specs[1..][j]))
                   && CheckFunction(table, specs[1..][k]) == Some(rest.error);
          assert forall j :: 0 <= j < k + 1 ==> Conforms(table, specs[j]) by {
            forall j | 0 <= j < k + 1 ensures Conforms(table, specs[j]) {
              if j > 0 { assert specs[j] == specs[1..][j - 1]; }
            }
          }
          assert specs[k + 1] == specs[1..][k];
          rest
        else
          assert forall k :: 0 <= k < |specs| ==> Conforms(table, specs[k]) by {
            forall k | 0 <= k < |specs| ensures Conforms(table, specs[k]) {
              if k > 0 { assert specs[k] == specs[1..][k - 1]; }
            }
          }
          rest
  }

  /** `_validate_registry`: `Ok` when the ABI passes, otherwise the `ValueError` it raises. */
  function ValidateRegistry(abi: seq<AbiEntry>): (r: Result<(), SchemaError>)
    ensures r.Ok? <==> forall k :: 0 <= k < |RequiredFunctions| ==> Conforms(FunctionTable(abi), RequiredFunctions[k])
    ensures r.Err? ==> exists k :: 0 <= k < |RequiredFunctions| && r.error.name == RequiredFunctions[k].name
    ensures r.Err? && r.error.MissingFunction? ==> r.error.name !in FunctionTable(abi)
    ensures r.Err? && !r.error.MissingFunction? ==> r.error.name in FunctionTable(abi)
  {
    CheckAll(FunctionTable(abi), RequiredFunctions)
  }

  /** The ABI passes exactly when each required name's last function entry carries the expected types. */
  lemma ValidateRegistryIff(abi: seq<AbiEntry>)
    ensures ValidateRegistry(abi).Ok? <==>
      forall k :: 0 <= k < |RequiredFunctions| ==>
        exists i :: IsLastFunctionNamed(abi, i, RequiredFunctions[k].name)
                    && abi[i].inputs == RequiredFunctions[k].inputs
                    && abi[i].outputs == RequiredFunctions[k].outputs
  {
    var table := FunctionTable(abi);
    forall k | 0 <= k < |RequiredFunctions|
      ensures Conforms(table, RequiredFunctions[k]) <==>
        exists i :: IsLastFunctionNamed(abi, i, RequiredFunctions[k].name)
                    && abi[i].inputs == RequiredFunctions[k].inputs
                    && abi[i].outputs == RequiredFunctions[k].outputs
    {
      var spec := RequiredFunctions[k];
      FunctionTableKeys(abi, spec.name);
      if Conforms(table, spec) {
        FunctionTableIsLastEntry(abi, spec.name);
      }
      if exists i :: IsLastFunctionNamed(abi, i, spec.name) && abi[i].inputs == spec.inputs && abi[i].outputs == spec.outputs {
        var i :| IsLastFunctionNamed(abi, i, spec.name) && abi[i].inputs == spec.inputs && abi[i].outputs == spec.outputs;
        FunctionTableIsLastEntry(abi, spec.name);
        var i' :| IsLastFunctionNamed(abi, i', spec.name) && table[spec.name] == abi[i'];
        LastFunctionUnique(abi, i, i', spec.name);
      }
    }
  }

  lemma LastFunctionUnique(abi: seq<AbiEntry>, i: int, i': int, name: string)
    requires IsLastFunctionNamed(abi, i, name) && IsLastFunctionNamed(abi, i', name)
    ensures i == i'
  {
  }

  /** An ABI without a `licenses` function fails on it first, whatever else it holds. */
  lemma MissingLicensesReportedFirst(abi: seq<AbiEntry>)
    requires forall i :: 0 <= i < |abi| && IsFunction(abi[i]) ==> abi[i].name != "licenses"
    ensures ValidateRegistry(abi) == Err(MissingFunction("licenses"))
  {
    FunctionTableKeys(abi, "licenses");
  }

  /** Entries whose type is not "function" never change the verdict. */
  lemma {:induction false} NonFunctionEntriesIgnored(abi: seq<AbiEntry>, e: AbiEntry, k: nat)
    requires !IsFunction(e) && k <= |abi|
    ensures ValidateRegistry(abi[..k] + [e] + abi[k..]) == ValidateRegistry(abi)
  {
    FunctionTableSkips(abi, e, k);
  }

  lemma {:induction false} FunctionTableSkips(abi: seq<AbiEntry>, e: AbiEntry, k: nat)
    requires !IsFunction(e) && k <= |abi|
    ensures FunctionTable(abi[..k] + [e] + abi[k..]) == FunctionTable(abi)
  {
    var ext := abi[..k] + [e] + abi[k..];
    if k == |abi| {
      assert ext[..|ext| - 1] == abi;
    } else {
      var n := |abi| - 1;
      FunctionTableSkips(abi[..n], e, k);
      assert ext[..|ext| - 1] == abi[..n][..k] + [e] + abi[..n][k..];
      assert ext[|ext| - 1] == abi[n];
    }
  }

  /** Appending a function the check does not ask about never changes the verdict. */
  lemma ExtraFunctionsAllowed(abi: seq<AbiEntry>, e: AbiEntry)
    requires IsFunction(e)
    requires forall k :: 0 <= k < |RequiredFunctions| ==> e.name != RequiredFunctions[k].name
    ensures ValidateRegistry(abi + [e]) == ValidateRegistry(abi)
  {
    var ext := abi + [e];
    assert ext[..|ext| - 1] == abi;
    var t, t' := FunctionTable(abi), FunctionTable(ext);
    assert t' == t[e.name := e];
    forall k | 0 <= k < |RequiredFunctions|
      ensures CheckFunction(t', RequiredFunctions[k]) == CheckFunction(t, RequiredFunctions[k])
    {
    }
    CheckAllAgrees(t, t', RequiredFunctions);
  }

  lemma {:induction false} CheckAllAgrees(t: map<string, AbiEntry>, t': map<string, AbiEntry>, specs: seq<FunctionSpec>)
    requires forall k :: 0 <= k < |specs| ==> CheckFunction(t', specs[k]) == CheckFunction(t, specs[k])
    ensures CheckAll(t', specs) == CheckAll(t, specs)
  {
    if specs != [] {
      assert CheckFunction(t', specs[0]) == CheckFunction(t, specs[0]);
      CheckAllAgrees(t, t', specs[1..]);
    }
  }
}
