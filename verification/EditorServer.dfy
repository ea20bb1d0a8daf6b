/** The server's checks on what the editor produces: only two kinds of complaint are left. */
module EditorServer {
  import opened Optional
  import opened Text
  import opened Workspaces
  import opened Editor
  import opened EditorInvariant

  predicate UniquePaths(fields: seq<Field>) {
    forall i, j :: 0 <= i < j < |fields| ==> Fold(fields[i].jsonPath) != Fold(fields[j].jsonPath)
  }

  predicate ShapeOk(method_: string, path: string, requestFields: seq<Field>, responseFields: seq<Field>) {
    !IsBlank(method_) && StartsWith(path, "/")
    && (forall f :: f in requestFields ==> FieldOk(f)) && (forall f :: f in responseFields ==> FieldOk(f))
    && UniquePaths(responseFields)
  }

  /** What the contract projection guarantees beyond that, and the server asks for: methods, routes from the root,
      named fields below `$`, and response paths that can be told apart within an operation. */
  predicate Servable(contract: Contract) {
    ContractOk(contract)
    && forall op :: op in contract.operations ==> ShapeOk(op.method_, op.path, op.requestFields, op.responseFields)
  }

  /** The steps of an editor's workspace have the shape of their operations. */
  lemma StepShape(ws: Workspace, contract: Contract, i: nat)
    requires StepsOk(ws, contract) && Servable(contract) && i < |ws.steps|
    ensures var s := ws.steps[i]; ShapeOk(s.method_, s.path, s.requestFields, s.responseFields)
  {
    hide UniqueIds, ContractOk;
    var s := ws.steps[i];
    assert s in ws.steps;
    var op :| op in contract.operations && StepOf(op, s);
    SameFieldsOk(op.requestFields, s.requestFields);
    SameFieldsOk(op.responseFields, s.responseFields);
  }

  lemma SameFieldsOk(a: seq<Field>, b: seq<Field>)
    requires SameFields(a, b) && forall f :: f in a ==> FieldOk(f)
    ensures forall f :: f in b ==> FieldOk(f)
  {
    forall f | f in b ensures FieldOk(f) {
      var i :| 0 <= i < |b| && b[i] == f;
      assert a[i] in a;
    }
  }

  /** The fields that a binding joins. */
  predicate Joins(ws: Workspace, b: Binding, v: Variable, s: nat, t: nat, f: nat, r: nat) {
    Fills(ws, b, v, s, t, f) && SavedFrom(ws, v, s, r)
  }

  predicate Harmless(source: Field, target: Field) { !source.sensitive && !CredentialTarget(target) }

  lemma FindStep(steps: seq<Step>, i: nat)
    requires Numbering(steps) && i < |steps|
    ensures Find(steps, StepNamed(steps[i].name)) == At(i)
  {
    hide Ends;
    forall j | 0 <= j < |steps| && StepNamed(steps[i].name)(steps[j]) ensures j == i { StepNamesDistinct(steps, j, i); }
    FindUnique(steps, StepNamed(steps[i].name), i);
  }

  lemma FindVariable(variables: seq<Variable>, i: nat)
    requires DistinctNames(variables) && i < |variables|
    ensures Find(variables, VariableNamed(variables[i].name)) == At(i)
  {
    FindUnique(variables, VariableNamed(variables[i].name), i);
  }

  lemma FindFields(ws: Workspace, contract: Contract, s: nat, t: nat, f: nat, r: nat, id: string)
    requires StepsOk(ws, contract) && Servable(contract) && s < |ws.steps| && t < |ws.steps|
    requires r < |ws.steps[s].responseFields| && f < |ws.steps[t].requestFields| && ws.steps[t].requestFields[f].id == Some(id)
    ensures Find(ws.steps[s].responseFields, FieldNamed(ws.steps[s].responseFields[r].jsonPath)) == At(r)
    ensures Find(ws.steps[t].requestFields, FieldWithId(id)) == At(f)
  {
    hide Servable, FromContract, FieldOk, IsBlank;
    assert ws.steps[s] in ws.steps && ws.steps[t] in ws.steps;
    StepShape(ws, contract, s);
    FindUnique(ws.steps[s].responseFields, FieldNamed(ws.steps[s].responseFields[r].jsonPath), r);
    FindUnique(ws.steps[t].requestFields, FieldWithId(id), f);
  }

  /** A binding made in the editor passes every server check except, possibly, the one against sensitive fields. */
  lemma EditorBinding(ws: Workspace, contract: Contract, b: Binding, v: Variable, s: nat, t: nat, f: nat, r: nat)
    requires Inv(ws, contract) && Servable(contract) && Joins(ws, b, v, s, t, f, r)
    ensures BindingFault(ws, b) ==
            if Harmless(ws.steps[s].responseFields[r], ws.steps[t].requestFields[f]) then None else Some(Sensitive)
  {
    hide Find, Numbering, StepsOk, Servable, VariableSound, BindingSound, DistinctNames, OneBindingEach, CredentialTarget, Stale;
    FindStep(ws.steps, t);
    var i :| 0 <= i < |ws.variables| && ws.variables[i] == v;
    FindVariable(ws.variables, i);
    FindStep(ws.steps, s);
    FindFields(ws, contract, s, t, f, r, b.targetFieldId);
    NotStale(ws, contract);
  }

  lemma NotStale(ws: Workspace, contract: Contract)
    requires Inv(ws, contract)
    ensures !Stale(ws)
  {
    hide FromContract, UniqueIds, Numbering, VariableSound, BindingSound, DistinctNames, OneBindingEach;
  }

  lemma JoinedFields(ws: Workspace, contract: Contract, b: Binding) returns (v: Variable, s: nat, t: nat, f: nat, r: nat)
    requires Inv(ws, contract) && b in ws.bindings
    ensures Joins(ws, b, v, s, t, f, r)
  {
    hide Ends, StepsOk, DistinctNames, OneBindingEach;
    assert BindingSound(ws, b);
    v, s, t, f :| Fills(ws, b, v, s, t, f);
    assert VariableSound(ws, v);
    var s': nat, r': nat :| SavedFrom(ws, v, s', r');
    r := r';
    StepNamesDistinct(ws.steps, s, s');
  }

  /** Some variable has a reserved name, or some binding joins a sensitive field. */
  ghost predicate Objectionable(ws: Workspace) {
    (exists v :: v in ws.variables && Reserved(v.name))
    || exists b: Binding, v: Variable, s: nat, t: nat, f: nat, r: nat :: b in ws.bindings && Joins(ws, b, v, s, t, f, r)
         && !Harmless(ws.steps[s].responseFields[r], ws.steps[t].requestFields[f])
  }

  /** Main result: the server accepts an editor's workspace exactly when no variable has a reserved name
      and no binding joins a sensitive field. */
  lemma ServerAccepts(ws: Workspace, contract: Contract)
    requires Inv(ws, contract) && Servable(contract)
    ensures Validate(ws).None? <==> !Objectionable(ws)
  {
    hide Numbering, StepsOk, Servable, BindingSound, DistinctNames, OneBindingEach, BindingFault, Joins, Harmless, Reserved;
    EditorVariables(ws, contract);
    EditorSteps(ws, contract);
    BindingsAccepted(ws, ws.bindings);
    if Validate(ws).None? {
      forall b: Binding, v: Variable, s: nat, t: nat, f: nat, r: nat | b in ws.bindings && Joins(ws, b, v, s, t, f, r)
        ensures s < |ws.steps| && t < |ws.steps| && r < |ws.steps[s].responseFields| && f < |ws.steps[t].requestFields|
        ensures Harmless(ws.steps[s].responseFields[r], ws.steps[t].requestFields[f])
      {
        JoinsInRange(ws, b, v, s, t, f, r);
        EditorBinding(ws, contract, b, v, s, t, f, r);
      }
    } else if !exists v :: v in ws.variables && Reserved(v.name) {
      var b :| b in ws.bindings && BindingFault(ws, b).Some?;
      var v, s, t, f, r := JoinedFields(ws, contract, b);
      EditorBinding(ws, contract, b, v, s, t, f, r);
    }
  }

  lemma JoinsInRange(ws: Workspace, b: Binding, v: Variable, s: nat, t: nat, f: nat, r: nat)
    requires Joins(ws, b, v, s, t, f, r)
    ensures s < |ws.steps| && t < |ws.steps| && r < |ws.steps[s].responseFields| && f < |ws.steps[t].requestFields|
  {
  }

  lemma EditorVariables(ws: Workspace, contract: Contract)
    requires Inv(ws, contract) && Servable(contract)
    ensures forall v :: v in ws.variables ==> (VariableOk(v) <==> !Reserved(v.name))
  {
    hide Reserved, DistinctNames, OneBindingEach, BindingSound, Servable, StepsOk, UniquePaths;
    forall v | v in ws.variables ensures VariableOk(v) <==> !Reserved(v.name) {
      assert VariableSound(ws, v);
      var s: nat, r: nat :| SavedFrom(ws, v, s, r);
      assert ws.steps[s] in ws.steps && ws.steps[s].responseFields[r] in ws.steps[s].responseFields;
      StepShape(ws, contract, s);
      assert FieldOk(ws.steps[s].responseFields[r]);
      NamedNotBlank(ws.steps[s].name, s + 1);
    }
  }

  lemma EditorSteps(ws: Workspace, contract: Contract)
    requires Inv(ws, contract) && Servable(contract)
    ensures forall s :: s in ws.steps ==> StepOk(s)
  {
    hide VariableSound, DistinctNames, OneBindingEach, BindingSound, FieldOk, StepsOk, Servable, UniquePaths, Ends;
    forall s | s in ws.steps ensures StepOk(s) {
      var i :| 0 <= i < |ws.steps| && ws.steps[i] == s;
      StepShape(ws, contract, i);
      NamedNotBlank(s.name, i + 1);
    }
  }

  lemma NamedNotBlank(name: string, n: nat)
    requires Ends(name, n)
    ensures !IsBlank(name)
  {
    var suffix := " " + Decimal(n);
    assert name[|name| - |suffix|..][1] == Decimal(n)[0];
    assert !IsSpace(name[|name| - |suffix| + 1]);
  }
}
