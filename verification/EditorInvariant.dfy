/** What every run of the editor keeps, and what the server then thinks of the result. */
module EditorInvariant {
  import opened Optional
  import opened Text
  import opened Workspaces
  import opened Editor

  // ---- numbered names ----

  /** The name ends in a blank and the numeral `n`. */
  predicate Ends(name: string, n: nat) {
    var suffix := " " + Decimal(n);
    |name| >= |suffix| && name[|name| - |suffix|..] == suffix
  }

  lemma NumberedEnds(base: string, n: nat)
    ensures Ends(Numbered(base, n), n)
  {
    assert Numbered(base, n) == base + (" " + Decimal(n));
  }

  /** Names that end in different numerals differ, even ignoring case. */
  lemma EndsDistinct(a: string, m: nat, b: string, n: nat)
    requires Ends(a, m) && Ends(b, n) && Fold(a) == Fold(b)
    ensures m == n
  {
    hide Decimal, Fold;
    FoldEnds(a, m);
    FoldEnds(b, n);
    var i, j := |a| - |Decimal(m)| - 1, |b| - |Decimal(n)| - 1;
    NumberedSuffixInjective(Fold(a[..i]), Fold(b[..j]), ' ', m, n);
  }

  lemma FoldEnds(a: string, m: nat)
    requires Ends(a, m)
    ensures Fold(a) == Fold(a[..|a| - |Decimal(m)| - 1]) + [' '] + Decimal(m)
  {
    var i := |a| - |Decimal(m)| - 1;
    assert a == a[..i] + (" " + Decimal(m));
    FoldConcat(a[..i], " " + Decimal(m));
    FoldConcat(" ", Decimal(m));
    FoldDigits(Decimal(m));
  }

  // ---- the invariant ----

  predicate Numbering(steps: seq<Step>) { forall i :: 0 <= i < |steps| ==> Ends(steps[i].name, i + 1) }

  predicate UniqueIds(fields: seq<Field>) {
    (forall i :: 0 <= i < |fields| ==> fields[i].id.Some?)
    && forall i, j :: 0 <= i < j < |fields| ==> fields[i].id != fields[j].id
  }

  /** What the editor needs of the contract: request fields that can be told apart by their ids. */
  predicate ContractOk(contract: Contract) { forall op :: op in contract.operations ==> UniqueIds(op.requestFields) }

  /** Lists of fields that agree on everything but the typed values. */
  predicate SameFields(a: seq<Field>, b: seq<Field>) {
    |a| == |b| && forall i :: 0 <= i < |a| ==> b[i] == a[i].(value := b[i].value)
  }

  /** The step is the operation, apart from its name and the typed values. */
  predicate StepOf(op: Operation, s: Step) {
    s.method_ == op.method_ && s.path == op.path && s.operationId == Some(op.id)
    && SameFields(op.requestFields, s.requestFields) && s.responseFields == Blanked(op.responseFields)
  }

  predicate FromContract(contract: Contract, s: Step) { exists op :: op in contract.operations && StepOf(op, s) }

  predicate StepsOk(ws: Workspace, contract: Contract) {
    forall s :: s in ws.steps ==>
      FromContract(contract, s) && UniqueIds(s.requestFields) && s.fingerprint == Some(contract.fingerprint)
  }

  /** The variable was saved from response field `r` of step `s`. */
  predicate SavedFrom(ws: Workspace, v: Variable, s: nat, r: nat) {
    s < |ws.steps| && r < |ws.steps[s].responseFields| && v.sourceStep == ws.steps[s].name
    && v.jsonPath == ws.steps[s].responseFields[r].jsonPath && v.typeName == ws.steps[s].responseFields[r].typeName
  }

  ghost predicate VariableSound(ws: Workspace, v: Variable) { IsWord(v.name) && exists s: nat, r: nat :: SavedFrom(ws, v, s, r) }

  /** The binding fills request field `f` of step `t` from variable `v`, saved in the earlier step `s`. */
  predicate Fills(ws: Workspace, b: Binding, v: Variable, s: nat, t: nat, f: nat) {
    s < t < |ws.steps| && v in ws.variables && f < |ws.steps[t].requestFields|
    && b.targetStep == ws.steps[t].name && b.sourceVariable == v.name && v.sourceStep == ws.steps[s].name
    && ws.steps[t].requestFields[f].id == Some(b.targetFieldId)
    && ws.steps[t].requestFields[f].typeName == v.typeName && !ws.steps[t].requestFields[f].sensitive
  }

  ghost predicate BindingSound(ws: Workspace, b: Binding) { exists v: Variable, s: nat, t: nat, f: nat :: Fills(ws, b, v, s, t, f) }

  predicate OneBindingEach(bindings: seq<Binding>) {
    forall i, j :: 0 <= i < j < |bindings| ==>
      bindings[i].targetStep != bindings[j].targetStep || bindings[i].targetFieldId != bindings[j].targetFieldId
  }

  ghost predicate Inv(ws: Workspace, contract: Contract) {
    Numbering(ws.steps) && StepsOk(ws, contract) && (ws.steps != [] ==> ws.fingerprint == Some(contract.fingerprint))
    && DistinctNames(ws.variables) && (forall v :: v in ws.variables ==> VariableSound(ws, v))
    && (forall b :: b in ws.bindings ==> BindingSound(ws, b)) && OneBindingEach(ws.bindings)
  }

  lemma StepNamesDistinct(steps: seq<Step>, i: nat, j: nat)
    requires Numbering(steps) && i < |steps| && j < |steps| && Fold(steps[i].name) == Fold(steps[j].name)
    ensures i == j
  {
    hide Ends;
    EndsDistinct(steps[i].name, i + 1, steps[j].name, j + 1);
  }

  lemma FirstIndexOf(steps: seq<Step>, i: nat)
    requires Numbering(steps) && i < |steps|
    ensures FirstIndex(steps, steps[i].name) == i
  {
    var r := FirstIndex(steps, steps[i].name);
    StepNamesDistinct(steps, r, i);
  }

  // ---- adding ----

  lemma AddKeeps(ws: Workspace, contract: Contract, op: Operation)
    requires Inv(ws, contract) && ContractOk(contract) && op in contract.operations
    ensures Inv(Add(ws, contract, op), contract)
  {
    hide Ends, UniqueIds, StepOf, VariableSound, BindingSound, DistinctNames, Decimal;
    var ws' := Add(ws, contract, op);
    var step := OperationStep(contract, op, |ws.steps| + 1);
    NumberedEnds(if op.name != "" then op.name else op.id, |ws.steps| + 1);
    assert Numbering(ws'.steps);
    OperationShape(contract, op, |ws.steps| + 1);
    Extended(ws, ws');
  }

  lemma OperationShape(contract: Contract, op: Operation, n: nat)
    requires ContractOk(contract) && op in contract.operations
    ensures StepOf(op, OperationStep(contract, op, n)) && UniqueIds(OperationStep(contract, op, n).requestFields)
  {
    SameIds(op.requestFields, Blanked(op.requestFields));
  }

  lemma SameIds(a: seq<Field>, b: seq<Field>)
    requires UniqueIds(a) && SameFields(a, b)
    ensures UniqueIds(b)
  {
    assert forall i :: 0 <= i < |a| ==> b[i].id == a[i].id;
  }

  /** References survive when steps are appended. */
  lemma Extended(ws: Workspace, ws': Workspace)
    requires ws.steps <= ws'.steps && ws'.variables == ws.variables && ws'.bindings == ws.bindings
    requires forall v :: v in ws.variables ==> VariableSound(ws, v)
    requires forall b :: b in ws.bindings ==> BindingSound(ws, b)
    ensures forall v :: v in ws'.variables ==> VariableSound(ws', v)
    ensures forall b :: b in ws'.bindings ==> BindingSound(ws', b)
  {
    forall v | v in ws'.variables ensures VariableSound(ws', v) {
      var s: nat, r: nat :| SavedFrom(ws, v, s, r);
      assert SavedFrom(ws', v, s, r);
    }
    forall b | b in ws'.bindings ensures BindingSound(ws', b) {
      var v: Variable, s: nat, t: nat, f: nat :| Fills(ws, b, v, s, t, f);
      assert Fills(ws', b, v, s, t, f);
    }
  }

  // ---- editing ----

  /** Two lists of steps that agree on everything but the typed values. */
  predicate SameSteps(a: seq<Step>, b: seq<Step>) {
    |a| == |b| && forall i :: 0 <= i < |a| ==>
      b[i] == a[i].(requestFields := b[i].requestFields) && SameFields(a[i].requestFields, b[i].requestFields)
  }

  lemma SetFieldSame(ws: Workspace, k: nat, f: nat, value: string)
    requires k < |ws.steps| && f < |ws.steps[k].requestFields|
    ensures SameSteps(ws.steps, SetField(ws, k, f, value).steps)
    ensures SetField(ws, k, f, value) == ws.(steps := SetField(ws, k, f, value).steps)
  {
  }

  lemma SameShape(contract: Contract, a: Step, b: Step)
    requires b == a.(requestFields := b.requestFields) && SameFields(a.requestFields, b.requestFields)
    requires FromContract(contract, a) && UniqueIds(a.requestFields)
    ensures FromContract(contract, b) && UniqueIds(b.requestFields)
  {
    hide UniqueIds;
    var op :| op in contract.operations && StepOf(op, a);
    SameIds(a.requestFields, b.requestFields);
    assert StepOf(op, b);
  }

  lemma SameStepsOk(ws: Workspace, ws': Workspace, contract: Contract)
    requires Numbering(ws.steps) && StepsOk(ws, contract) && SameSteps(ws.steps, ws'.steps)
    ensures Numbering(ws'.steps) && StepsOk(ws', contract)
  {
    hide Ends, UniqueIds, FromContract, SameFields;
    forall s | s in ws'.steps
      ensures FromContract(contract, s) && UniqueIds(s.requestFields) && s.fingerprint == Some(contract.fingerprint)
    {
      var i :| 0 <= i < |ws'.steps| && ws'.steps[i] == s;
      assert ws.steps[i] in ws.steps;
      SameShape(contract, ws.steps[i], s);
    }
  }

  lemma SameStepsVariable(ws: Workspace, ws': Workspace, v: Variable)
    requires VariableSound(ws, v) && SameSteps(ws.steps, ws'.steps)
    ensures VariableSound(ws', v)
  {
    hide SameFields, IsWord;
    var s: nat, r: nat :| SavedFrom(ws, v, s, r);
    assert SavedFrom(ws', v, s, r);
  }

  lemma SameStepsBinding(ws: Workspace, ws': Workspace, b: Binding)
    requires BindingSound(ws, b) && SameSteps(ws.steps, ws'.steps) && ws'.variables == ws.variables
    ensures BindingSound(ws', b)
  {
    var v: Variable, s: nat, t: nat, f: nat :| Fills(ws, b, v, s, t, f);
    assert SameFields(ws.steps[t].requestFields, ws'.steps[t].requestFields);
    assert Fills(ws', b, v, s, t, f);
  }

  lemma SameStepsKeep(ws: Workspace, ws': Workspace, contract: Contract)
    requires Inv(ws, contract) && SameSteps(ws.steps, ws'.steps) && ws'.variables == ws.variables && ws'.fingerprint == ws.fingerprint
    ensures Numbering(ws'.steps) && StepsOk(ws', contract) && (ws'.steps != [] ==> ws'.fingerprint == Some(contract.fingerprint))
    ensures forall v :: v in ws'.variables ==> VariableSound(ws', v)
    ensures forall b :: BindingSound(ws, b) ==> BindingSound(ws', b)
  {
    hide Numbering, StepsOk, VariableSound, BindingSound, DistinctNames, OneBindingEach;
    SameStepsOk(ws, ws', contract);
    forall v | v in ws'.variables ensures VariableSound(ws', v) { SameStepsVariable(ws, ws', v); }
    forall b | BindingSound(ws, b) ensures BindingSound(ws', b) { SameStepsBinding(ws, ws', b); }
  }

  lemma EditKeeps(ws: Workspace, contract: Contract, k: nat, f: nat, text: string)
    requires Inv(ws, contract) && k < |ws.steps| && f < |ws.steps[k].requestFields|
    ensures Inv(SetField(ws, k, f, text), contract)
  {
    SetFieldSame(ws, k, f, text);
    SameStepsKeep(ws, SetField(ws, k, f, text), contract);
  }

  // ---- assigning ----

  lemma {:induction false} KeptOneEach(bindings: seq<Binding>, keep: Binding -> bool)
    requires OneBindingEach(bindings)
    ensures OneBindingEach(KeepBindings(bindings, keep))
  {
    if bindings != [] {
      KeptOneEach(bindings[1..], keep);
      var rest := KeepBindings(bindings[1..], keep);
      forall b | b in rest ensures b.targetStep != bindings[0].targetStep || b.targetFieldId != bindings[0].targetFieldId {
        var i :| 0 <= i < |bindings[1..]| && bindings[1..][i] == b;
        assert bindings[i + 1] == b;
      }
    }
  }

  lemma AssignKeeps(ws: Workspace, contract: Contract, k: nat, f: nat, name: string)
    requires Inv(ws, contract) && Enabled(ws, contract, Assigned(k, f, name))
    ensures Inv(Assign(ws, k, f, name), contract)
  {
    hide Numbering, StepsOk, VariableSound, BindingSound, SetField, DistinctNames;
    var ws' := Assign(ws, k, f, name);
    var step, field := ws.steps[k].name, ws.steps[k].requestFields[f];
    SetFieldSame(ws, k, f, if name != "" then "${" + name + "}" else "");
    SameStepsKeep(ws, ws', contract);
    KeptOneEach(ws.bindings, Elsewhere(step, FieldId(field)));
    var others := KeepBindings(ws.bindings, Elsewhere(step, FieldId(field)));
    if name != "" {
      var b := Binding(name, step, FieldId(field));
      NewBindingSound(ws, contract, k, f, name);
      AddedOneEach(others, b);
      assert ws'.bindings == others + [b];
    }
  }

  lemma AddedOneEach(bindings: seq<Binding>, b: Binding)
    requires OneBindingEach(bindings)
    requires forall o :: o in bindings ==> o.targetStep != b.targetStep || o.targetFieldId != b.targetFieldId
    ensures OneBindingEach(bindings + [b])
  {
  }

  lemma NewBindingSound(ws: Workspace, contract: Contract, k: nat, f: nat, name: string)
    requires Inv(ws, contract) && k < |ws.steps| && f < |ws.steps[k].requestFields|
    requires Offered(ws, k, ws.steps[k].requestFields[f], name)
    ensures BindingSound(ws, Binding(name, ws.steps[k].name, FieldId(ws.steps[k].requestFields[f])))
  {
    hide DistinctNames, OneBindingEach, Numbering, StepsOk, BindingSound;
    var field := ws.steps[k].requestFields[f];
    var v :| v in ws.variables && v.name == name && FirstIndex(ws.steps, v.sourceStep) < k
      && v.typeName == field.typeName && !field.sensitive;
    assert VariableSound(ws, v);
    var s: nat, r: nat :| SavedFrom(ws, v, s, r);
    FirstIndexOf(ws.steps, s);
    HasId(ws, contract, k, f);
    OfferedFills(ws, k, f, v, s);
  }

  lemma HasId(ws: Workspace, contract: Contract, k: nat, f: nat)
    requires StepsOk(ws, contract) && k < |ws.steps| && f < |ws.steps[k].requestFields|
    ensures ws.steps[k].requestFields[f].id.Some?
  {
    hide FromContract;
    assert ws.steps[k] in ws.steps;
  }

  lemma OfferedFills(ws: Workspace, k: nat, f: nat, v: Variable, s: nat)
    requires s < k < |ws.steps| && f < |ws.steps[k].requestFields| && v in ws.variables && v.sourceStep == ws.steps[s].name
    requires var field := ws.steps[k].requestFields[f]; field.id.Some? && v.typeName == field.typeName && !field.sensitive
    ensures BindingSound(ws, Binding(v.name, ws.steps[k].name, FieldId(ws.steps[k].requestFields[f])))
  {
    assert Fills(ws, Binding(v.name, ws.steps[k].name, FieldId(ws.steps[k].requestFields[f])), v, s, k, f);
  }

  // ---- saving ----

  lemma SaveKeeps(ws: Workspace, contract: Contract, k: nat, f: nat, typed: string, position: nat)
    requires Inv(ws, contract) && k < |ws.steps| && f < |ws.steps[k].responseFields| && position <= |ws.variables|
    ensures Inv(Save(ws, k, f, typed, position), contract)
  {
    var ws' := Save(ws, k, f, typed, position);
    if ws' != ws {
      var name, field := Trim(typed), ws.steps[k].responseFields[f];
      var added := Variable(name, ws.steps[k].name, field.jsonPath, field.typeName);
      assert forall v :: v in ws'.variables <==> v in ws.variables || v == added by { Inserted(ws.variables, added, position); }
      InsertedDistinct(ws.variables, added, position);
      assert SavedFrom(ws', added, k, f);
      forall v | v in ws'.variables ensures VariableSound(ws', v) {
        if v != added {
          var s: nat, r: nat :| SavedFrom(ws, v, s, r);
          assert SavedFrom(ws', v, s, r);
        }
      }
      forall b | b in ws'.bindings ensures BindingSound(ws', b) {
        var v: Variable, s: nat, t: nat, g: nat :| Fills(ws, b, v, s, t, g);
        assert Fills(ws', b, v, s, t, g);
      }
    }
  }

  lemma Inserted(variables: seq<Variable>, added: Variable, position: nat)
    requires position <= |variables|
    ensures forall v :: v in variables[..position] + [added] + variables[position..] <==> v in variables || v == added
  {
    assert variables == variables[..position] + variables[position..];
  }

  lemma InsertedDistinct(variables: seq<Variable>, added: Variable, position: nat)
    requires position <= |variables| && DistinctNames(variables)
    requires !Taken(variables, added.name)
    ensures DistinctNames(variables[..position] + [added] + variables[position..])
  {
    var r := variables[..position] + [added] + variables[position..];
    forall i, j | 0 <= i < j < |r| ensures Fold(r[i].name) != Fold(r[j].name) {
      assert forall i :: 0 <= i < |r| && i != position ==> r[i] == variables[if i < position then i else i - 1];
      assert i != position ==> r[i] in variables;
      assert j != position ==> r[j] in variables;
    }
  }

  // ---- removing ----

  /** The new index of old index `i`. */
  function Shifted(i: nat, k: nat): nat
    requires i != k
  {
    if i < k then i else i - 1
  }

  lemma KeptStep(steps: seq<Step>, k: nat, i: nat)
    requires Numbering(steps) && k < |steps| && i < |steps| && i != k
    ensures Shifted(i, k) < |Without(steps, k)| && Without(steps, k)[Shifted(i, k)] == steps[i]
    ensures Renamed(Without(steps, k), steps[i].name) == NewName(Without(steps, k), Shifted(i, k))
    ensures steps[i].name != steps[k].name
  {
    var kept := Without(steps, k);
    var i' := Shifted(i, k);
    assert kept[i'] == steps[i];
    var r := FirstIndex(kept, steps[i].name);
    assert r >= 0;
    StepNamesDistinct(steps, Before(r, k), i);
    if steps[i].name == steps[k].name { StepNamesDistinct(steps, i, k); }
  }

  lemma RenumberedOk(steps: seq<Step>, k: nat)
    requires k < |steps|
    ensures Numbering(Renumbered(Without(steps, k)))
    ensures forall s :: s in Renumbered(Without(steps, k)) ==> exists o :: o in steps && s == o.(name := s.name)
  {
    var kept := Without(steps, k);
    var after := Renumbered(kept);
    forall i | 0 <= i < |after| ensures Ends(after[i].name, i + 1) {
      NumberedEnds(if !Blank(kept[i].operationId) then kept[i].operationId.value else kept[i].name, i + 1);
    }
    forall s | s in after ensures exists o :: o in steps && s == o.(name := s.name) {
      var i :| 0 <= i < |after| && after[i] == s;
      assert steps[Before(i, k)] in steps && s == steps[Before(i, k)].(name := s.name);
    }
  }

  /** A surviving variable is still saved from the same field, under the step's new name. */
  lemma VariableSurvives(ws: Workspace, k: nat, v: Variable, s: nat, r: nat)
    requires Numbering(ws.steps) && k < |ws.steps| && SavedFrom(ws, v, s, r) && s != k
    ensures var kept := Without(ws.steps, k);
            SavedFrom(Remove(ws, k), v.(sourceStep := Renamed(kept, v.sourceStep)), Shifted(s, k), r)
  {
    KeptStep(ws.steps, k, s);
  }

  lemma RemovedVariables(ws: Workspace, k: nat, v': Variable) returns (v: Variable)
    requires k < |ws.steps| && v' in Remove(ws, k).variables
    ensures v in ws.variables && v.sourceStep != ws.steps[k].name
    ensures v' == v.(sourceStep := Renamed(Without(ws.steps, k), v.sourceStep))
  {
    var kept, before := Without(ws.steps, k), KeepVariables(ws.variables, ws.steps[k].name);
    var i :| 0 <= i < |before| && RenameVariables(kept, before)[i] == v';
    v := before[i];
  }

  lemma SurvivingVariable(ws: Workspace, k: nat, v: Variable)
    requires k < |ws.steps| && v in ws.variables && v.sourceStep != ws.steps[k].name
    ensures v.(sourceStep := Renamed(Without(ws.steps, k), v.sourceStep)) in Remove(ws, k).variables
  {
    var kept, before := Without(ws.steps, k), KeepVariables(ws.variables, ws.steps[k].name);
    var i :| 0 <= i < |before| && before[i] == v;
    assert RenameVariables(kept, before)[i] == v.(sourceStep := Renamed(kept, v.sourceStep));
  }

  lemma BindingSurvives(ws: Workspace, k: nat, b: Binding, v: Variable, s: nat, t: nat, f: nat)
    requires Numbering(ws.steps) && k < |ws.steps| && Fills(ws, b, v, s, t, f) && s != k && t != k
    ensures var kept := Without(ws.steps, k);
            Fills(Remove(ws, k), b.(targetStep := Renamed(kept, b.targetStep)), v.(sourceStep := Renamed(kept, v.sourceStep)),
              Shifted(s, k), Shifted(t, k), f)
  {
    KeptStep(ws.steps, k, s);
    KeptStep(ws.steps, k, t);
    SurvivingVariable(ws, k, v);
  }

  lemma RemovedBinding(ws: Workspace, k: nat, b': Binding) returns (b: Binding)
    requires k < |ws.steps| && b' in Remove(ws, k).bindings
    ensures b in ws.bindings && Survives(ws, ws.steps[k].name)(b)
    ensures b' == b.(targetStep := Renamed(Without(ws.steps, k), b.targetStep))
  {
    var kept, before := Without(ws.steps, k), KeepBindings(ws.bindings, Survives(ws, ws.steps[k].name));
    var i :| 0 <= i < |before| && RenameBindings(kept, before)[i] == b';
    b := before[i];
  }

  lemma SurvivingBinding(ws: Workspace, k: nat, b: Binding)
    requires k < |ws.steps| && b in ws.bindings && Survives(ws, ws.steps[k].name)(b)
    ensures b.(targetStep := Renamed(Without(ws.steps, k), b.targetStep)) in Remove(ws, k).bindings
  {
    var kept, before := Without(ws.steps, k), KeepBindings(ws.bindings, Survives(ws, ws.steps[k].name));
    var i :| 0 <= i < |before| && before[i] == b;
    assert RenameBindings(kept, before)[i] == b.(targetStep := Renamed(kept, b.targetStep));
  }

  predicate FromVariable(ws: Workspace, k: nat, v': Variable)
    requires k < |ws.steps|
  {
    exists v :: v in ws.variables && v.sourceStep != ws.steps[k].name
      && v' == v.(sourceStep := Renamed(Without(ws.steps, k), v.sourceStep))
  }

  predicate FromBinding(ws: Workspace, k: nat, b': Binding)
    requires k < |ws.steps|
  {
    exists b :: b in ws.bindings && b.targetStep != ws.steps[k].name && !SavedFromStep(ws.variables, ws.steps[k].name, b.sourceVariable)
      && b' == b.(targetStep := Renamed(Without(ws.steps, k), b.targetStep))
  }

  /** What a removal leaves: the variables saved from other steps, and the bindings into other steps of variables that
      were not saved from the removed one, each under its step's new name; and the other steps, renumbered. */
  lemma RemovedExactly(ws: Workspace, k: nat)
    requires k < |ws.steps|
    ensures forall v :: v in Remove(ws, k).variables <==> FromVariable(ws, k, v)
    ensures forall b :: b in Remove(ws, k).bindings <==> FromBinding(ws, k, b)
    ensures |Remove(ws, k).steps| == |ws.steps| - 1
    ensures forall i :: 0 <= i < |ws.steps| - 1 ==>
              var o := ws.steps[Before(i, k)];
              Remove(ws, k).steps[i] == o.(name := Numbered(if !Blank(o.operationId) then o.operationId.value else o.name, i + 1))
  {
    hide Renamed, Numbered, Blank, SavedFromStep;
    forall v' ensures v' in Remove(ws, k).variables <==> FromVariable(ws, k, v') {
      if v' in Remove(ws, k).variables { var v := RemovedVariables(ws, k, v'); }
      if v :| v in ws.variables && v.sourceStep != ws.steps[k].name
              && v' == v.(sourceStep := Renamed(Without(ws.steps, k), v.sourceStep)) {
        SurvivingVariable(ws, k, v);
      }
    }
    forall b' ensures b' in Remove(ws, k).bindings <==> FromBinding(ws, k, b') {
      if b' in Remove(ws, k).bindings { var b := RemovedBinding(ws, k, b'); }
      if b :| b in ws.bindings && b.targetStep != ws.steps[k].name && !SavedFromStep(ws.variables, ws.steps[k].name, b.sourceVariable)
              && b' == b.(targetStep := Renamed(Without(ws.steps, k), b.targetStep)) {
        SurvivingBinding(ws, k, b);
      }
    }
  }

  lemma RenamedInjective(steps: seq<Step>, k: nat, i: nat, j: nat)
    requires Numbering(steps) && k < |steps| && i < |steps| && j < |steps| && i != k && j != k
    requires Renamed(Without(steps, k), steps[i].name) == Renamed(Without(steps, k), steps[j].name)
    ensures i == j
  {
    KeptStep(steps, k, i);
    KeptStep(steps, k, j);
    RenumberedOk(steps, k);
    var after := Renumbered(Without(steps, k));
    StepNamesDistinct(after, Shifted(i, k), Shifted(j, k));
  }

  lemma RemoveKeepsVariables(ws: Workspace, contract: Contract, k: nat)
    requires Inv(ws, contract) && k < |ws.steps|
    ensures var ws' := Remove(ws, k); DistinctNames(ws'.variables) && forall v :: v in ws'.variables ==> VariableSound(ws', v)
  {
    var ws' := Remove(ws, k);
    KeptDistinct(ws.variables, ws.steps[k].name);
    forall v' | v' in ws'.variables ensures VariableSound(ws', v') {
      var v := RemovedVariables(ws, k, v');
      assert VariableSound(ws, v);
      var s: nat, r: nat :| SavedFrom(ws, v, s, r);
      VariableSurvives(ws, k, v, s, r);
    }
  }

  lemma {:induction false} KeptDistinct(variables: seq<Variable>, removed: string)
    requires DistinctNames(variables)
    ensures DistinctNames(KeepVariables(variables, removed))
  {
    if variables != [] {
      KeptDistinct(variables[1..], removed);
      var rest := KeepVariables(variables[1..], removed);
      forall v | v in rest ensures Fold(v.name) != Fold(variables[0].name) {
        var i :| 0 <= i < |variables[1..]| && variables[1..][i] == v;
        assert variables[i + 1] == v;
      }
    }
  }

  lemma SurvivingBindingSound(ws: Workspace, contract: Contract, k: nat, b: Binding) returns (v: Variable, s: nat, t: nat, f: nat)
    requires Inv(ws, contract) && k < |ws.steps| && b in ws.bindings && Survives(ws, ws.steps[k].name)(b)
    ensures Fills(ws, b, v, s, t, f) && s != k && t != k
  {
    assert BindingSound(ws, b);
    v, s, t, f :| Fills(ws, b, v, s, t, f);
  }

  lemma RemoveKeepsBindings(ws: Workspace, contract: Contract, k: nat)
    requires Inv(ws, contract) && k < |ws.steps|
    ensures var ws' := Remove(ws, k); forall b :: b in ws'.bindings ==> BindingSound(ws', b)
  {
    var ws' := Remove(ws, k);
    forall b' | b' in ws'.bindings ensures BindingSound(ws', b') {
      var b := RemovedBinding(ws, k, b');
      var v, s, t, f := SurvivingBindingSound(ws, contract, k, b);
      BindingSurvives(ws, k, b, v, s, t, f);
    }
  }

  lemma RemoveKeepsOneEach(ws: Workspace, contract: Contract, k: nat)
    requires Inv(ws, contract) && k < |ws.steps|
    ensures OneBindingEach(Remove(ws, k).bindings)
  {
    var keep := Survives(ws, ws.steps[k].name);
    var kept, before := Without(ws.steps, k), KeepBindings(ws.bindings, keep);
    KeptOneEach(ws.bindings, keep);
    var after := RenameBindings(kept, before);
    forall i, j | 0 <= i < j < |after| && after[i].targetStep == after[j].targetStep
      ensures after[i].targetFieldId != after[j].targetFieldId
    {
      var a, b := before[i], before[j];
      assert a in before && b in before;
      var va, sa, ta, fa := SurvivingBindingSound(ws, contract, k, a);
      var vb, sb, tb, fb := SurvivingBindingSound(ws, contract, k, b);
      RenamedInjective(ws.steps, k, ta, tb);
    }
  }

  lemma RemoveKeepsSteps(ws: Workspace, contract: Contract, k: nat)
    requires StepsOk(ws, contract) && k < |ws.steps|
    ensures StepsOk(Remove(ws, k), contract)
  {
    hide UniqueIds, SameFields;
    RenumberedOk(ws.steps, k);
    forall s | s in Remove(ws, k).steps
      ensures FromContract(contract, s) && UniqueIds(s.requestFields) && s.fingerprint == Some(contract.fingerprint)
    {
      var o :| o in ws.steps && s == o.(name := s.name);
      var op :| op in contract.operations && StepOf(op, o);
      assert StepOf(op, s);
    }
  }

  /** Removing a step drops what hangs on it and renumbers the rest at once; every other reference survives. */
  lemma RemoveKeeps(ws: Workspace, contract: Contract, k: nat)
    requires Inv(ws, contract) && k < |ws.steps|
    ensures Inv(Remove(ws, k), contract)
  {
    hide StepsOk, VariableSound, BindingSound, OneBindingEach, DistinctNames;
    RenumberedOk(ws.steps, k);
    RemoveKeepsSteps(ws, contract, k);
    RemoveKeepsVariables(ws, contract, k);
    RemoveKeepsBindings(ws, contract, k);
    RemoveKeepsOneEach(ws, contract, k);
  }

  // ---- runs ----

  lemma StepKeeps(ws: Workspace, contract: Contract, e: Event)
    requires Inv(ws, contract) && ContractOk(contract) && Enabled(ws, contract, e)
    ensures Inv(Apply(ws, contract, e), contract)
  {
    hide Inv, Add, Save, Assign, SetField, Remove, ContractOk;
    match e
    case Added(op) => AddKeeps(ws, contract, op);
    case Saved(k, f, typed, p) => SaveKeeps(ws, contract, k, f, typed, p);
    case Assigned(k, f, name) => AssignKeeps(ws, contract, k, f, name);
    case Edited(k, f, text) => EditKeeps(ws, contract, k, f, text);
    case Removed(k) => RemoveKeeps(ws, contract, k);
  }

  lemma {:induction false} RunKeeps(from_: Workspace, contract: Contract, events: seq<Event>, ws: Workspace)
    requires Inv(from_, contract) && ContractOk(contract) && Reaches(from_, contract, events, ws)
    ensures Inv(ws, contract)
    decreases |events|
  {
    hide Inv, ContractOk, Enabled, Apply;
    if events != [] {
      StepKeeps(from_, contract, events[0]);
      RunKeeps(Apply(from_, contract, events[0]), contract, events[1..], ws);
    }
  }

  /** Main result: whatever the page lets a user do, from an empty workspace, under one contract. */
  lemma EditorKeepsInvariant(contract: Contract, events: seq<Event>, ws: Workspace)
    requires ContractOk(contract) && Reaches(EMPTY, contract, events, ws)
    ensures Inv(ws, contract)
  {
    RunKeeps(EMPTY, contract, events, ws);
  }
}
