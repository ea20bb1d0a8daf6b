/** The workspace editor of the API builder page: a state machine over one workspace. */
module Editor {
  import opened Optional
  import opened Text
  import opened Workspaces

  datatype Operation = Operation(
    id: string, name: string, method_: string, path: string, requestFields: seq<Field>, responseFields: seq<Field>)

  datatype Contract = Contract(fingerprint: string, operations: seq<Operation>)

  function Blanked(fields: seq<Field>): (r: seq<Field>)
    ensures |r| == |fields| && forall i :: 0 <= i < |r| ==> r[i] == fields[i].(value := "")
  {
    seq(|fields|, i requires 0 <= i < |fields| => fields[i].(value := ""))
  }

  function Numbered(base: string, n: nat): string { base + " " + Decimal(n) }

  function OperationStep(contract: Contract, op: Operation, n: nat): Step {
    Step(Numbered(if op.name != "" then op.name else op.id, n), op.method_, op.path,
      Blanked(op.requestFields), Blanked(op.responseFields), Some(op.id), Some(contract.fingerprint))
  }

  function Add(ws: Workspace, contract: Contract, op: Operation): Workspace {
    ws.(fingerprint := Some(contract.fingerprint), steps := ws.steps + [OperationStep(contract, op, |ws.steps| + 1)])
  }

  function SetField(ws: Workspace, k: nat, f: nat, value: string): Workspace
    requires k < |ws.steps| && f < |ws.steps[k].requestFields|
  {
    var step := ws.steps[k];
    ws.(steps := ws.steps[k := step.(requestFields := step.requestFields[f := step.requestFields[f].(value := value)])])
  }

  function KeepBindings(bindings: seq<Binding>, keep: Binding -> bool): (r: seq<Binding>)
    ensures forall b :: b in r <==> b in bindings && keep(b)
  {
    if bindings == [] then []
    else
      var rest := KeepBindings(bindings[1..], keep);
      if keep(bindings[0]) then [bindings[0]] + rest else rest
  }

  /** The bindings that stay keep their order: of `a` and `b` together stay those of `a` and then those of `b`, and of one
      binding that binding or none. */
  lemma {:induction false} KeepSplits(a: seq<Binding>, b: seq<Binding>, keep: Binding -> bool)
    ensures KeepBindings(a + b, keep) == KeepBindings(a, keep) + KeepBindings(b, keep)
    ensures forall x :: KeepBindings([x], keep) == if keep(x) then [x] else []
  {
    if a == [] {
      assert a + b == b;
    } else {
      assert (a + b)[1..] == a[1..] + b;
      KeepSplits(a[1..], b, keep);
    }
  }

  function Elsewhere(step: string, id: string): Binding -> bool {
    (b: Binding) => b.targetStep != step || b.targetFieldId != id
  }

  function FieldId(f: Field): string { if f.id.Some? then f.id.value else "" }

  /** Choosing a variable, or nothing, in the list beside a request field. */
  function Assign(ws: Workspace, k: nat, f: nat, name: string): Workspace
    requires k < |ws.steps| && f < |ws.steps[k].requestFields|
  {
    var step, id := ws.steps[k].name, FieldId(ws.steps[k].requestFields[f]);
    var others := KeepBindings(ws.bindings, Elsewhere(step, id));
    SetField(ws, k, f, if name != "" then "${" + name + "}" else "")
      .(bindings := if name != "" then others + [Binding(name, step, id)] else others)
  }

  /** Saving a response field under a new name. The list is kept sorted, so the new variable goes in at one position. */
  function Save(ws: Workspace, k: nat, f: nat, typed: string, position: nat): Workspace
    requires k < |ws.steps| && f < |ws.steps[k].responseFields| && position <= |ws.variables|
  {
    var name, field := Trim(typed), ws.steps[k].responseFields[f];
    if !IsWord(name) || Taken(ws.variables, name) then ws
    else
      ws.(variables := ws.variables[..position] + [Variable(name, ws.steps[k].name, field.jsonPath, field.typeName)]
                       + ws.variables[position..])
  }

  predicate Taken(variables: seq<Variable>, name: string) { exists v :: v in variables && Fold(v.name) == Fold(name) }

  method FindTaken(variables: seq<Variable>, name: string) returns (taken: bool)
    ensures taken == Taken(variables, name)
  {
    for i := 0 to |variables|
      invariant forall j :: 0 <= j < i ==> Fold(variables[j].name) != Fold(name)
    {
      if Fold(variables[i].name) == Fold(name) {
        assert variables[i] in variables;
        return true;
      }
    }
    return false;
  }

  function Without<T>(xs: seq<T>, k: nat): (r: seq<T>)
    requires k < |xs|
    ensures |r| == |xs| - 1
    ensures forall i :: 0 <= i < |r| ==> r[i] == xs[Before(i, k)]
  {
    xs[..k] + xs[k + 1..]
  }

  /** The old index of what is at index `i` once index `k` is gone. */
  function Before(i: nat, k: nat): nat { if i < k then i else i + 1 }

  function KeepVariables(variables: seq<Variable>, removed: string): (r: seq<Variable>)
    ensures forall v :: v in r <==> v in variables && v.sourceStep != removed
    ensures |r| <= |variables|
  {
    if variables == [] then []
    else
      var rest := KeepVariables(variables[1..], removed);
      if variables[0].sourceStep != removed then [variables[0]] + rest else rest
  }

  function NewName(kept: seq<Step>, i: nat): string
    requires i < |kept|
  {
    Numbered(if !Blank(kept[i].operationId) then kept[i].operationId.value else kept[i].name, i + 1)
  }

  function Renumbered(kept: seq<Step>): (r: seq<Step>)
    ensures |r| == |kept| && forall i :: 0 <= i < |r| ==> r[i] == kept[i].(name := NewName(kept, i))
  {
    seq(|kept|, i requires 0 <= i < |kept| => kept[i].(name := NewName(kept, i)))
  }

  function FirstIndex(steps: seq<Step>, name: string): (r: int)
    ensures -1 <= r < |steps|
    ensures r >= 0 ==> steps[r].name == name && forall i :: 0 <= i < r ==> steps[i].name != name
    ensures r == -1 ==> forall i :: 0 <= i < |steps| ==> steps[i].name != name
  {
    if steps == [] then -1
    else if steps[0].name == name then 0
    else
      var r := FirstIndex(steps[1..], name);
      assert forall i :: 1 <= i < |steps| ==> steps[i] == steps[1..][i - 1];
      if r == -1 then -1 else r + 1
  }

  /** The simultaneous renaming: every reference is looked up among the old names. */
  function Renamed(kept: seq<Step>, name: string): string {
    var i := FirstIndex(kept, name);
    if i >= 0 then NewName(kept, i) else name
  }

  function RenameVariables(kept: seq<Step>, variables: seq<Variable>): (r: seq<Variable>)
    ensures |r| == |variables|
    ensures forall i :: 0 <= i < |r| ==> r[i] == variables[i].(sourceStep := Renamed(kept, variables[i].sourceStep))
  {
    seq(|variables|, i requires 0 <= i < |variables| => variables[i].(sourceStep := Renamed(kept, variables[i].sourceStep)))
  }

  function RenameBindings(kept: seq<Step>, bindings: seq<Binding>): (r: seq<Binding>)
    ensures |r| == |bindings|
    ensures forall i :: 0 <= i < |r| ==> r[i] == bindings[i].(targetStep := Renamed(kept, bindings[i].targetStep))
  {
    seq(|bindings|, i requires 0 <= i < |bindings| => bindings[i].(targetStep := Renamed(kept, bindings[i].targetStep)))
  }

  predicate SavedFromStep(variables: seq<Variable>, step: string, name: string) {
    exists v :: v in variables && v.sourceStep == step && v.name == name
  }

  function Survives(ws: Workspace, removed: string): Binding -> bool {
    (b: Binding) => b.targetStep != removed && !SavedFromStep(ws.variables, removed, b.sourceVariable)
  }

  function Remove(ws: Workspace, k: nat): Workspace
    requires k < |ws.steps|
  {
    var removed, kept := ws.steps[k].name, Without(ws.steps, k);
    ws.(steps := Renumbered(kept),
        variables := RenameVariables(kept, KeepVariables(ws.variables, removed)),
        bindings := RenameBindings(kept, KeepBindings(ws.bindings, Survives(ws, removed))))
  }

  // ---- runs ----

  datatype Event =
    | Added(operation: Operation)
    | Saved(step: nat, field: nat, typed: string, position: nat)
    | Assigned(step: nat, field: nat, name: string)
    | Edited(step: nat, field: nat, text: string)
    | Removed(step: nat)

  /** The variables the page offers beside a request field. */
  predicate Offered(ws: Workspace, k: nat, f: Field, name: string) {
    exists v :: v in ws.variables && v.name == name && FirstIndex(ws.steps, v.sourceStep) < k && v.typeName == f.typeName && !f.sensitive
  }

  /** What the page lets a user do. */
  predicate Enabled(ws: Workspace, contract: Contract, e: Event) {
    match e
    case Added(op) => op in contract.operations
    case Saved(k, f, _, p) => k < |ws.steps| && f < |ws.steps[k].responseFields| && p <= |ws.variables|
    case Assigned(k, f, name) =>
      k < |ws.steps| && f < |ws.steps[k].requestFields| && (name == "" || Offered(ws, k, ws.steps[k].requestFields[f], name))
    case Edited(k, f, _) => k < |ws.steps| && f < |ws.steps[k].requestFields|
    case Removed(k) => k < |ws.steps|
  }

  function Apply(ws: Workspace, contract: Contract, e: Event): Workspace
    requires Enabled(ws, contract, e)
  {
    match e
    case Added(op) => Add(ws, contract, op)
    case Saved(k, f, typed, p) => Save(ws, k, f, typed, p)
    case Assigned(k, f, name) => Assign(ws, k, f, name)
    case Edited(k, f, text) => SetField(ws, k, f, text)
    case Removed(k) => Remove(ws, k)
  }

  /** `ws` is reached from an empty workspace by what the page lets a user do. */
  predicate Reaches(from_: Workspace, contract: Contract, events: seq<Event>, ws: Workspace)
    decreases |events|
  {
    if events == [] then from_ == ws
    else Enabled(from_, contract, events[0]) && Reaches(Apply(from_, contract, events[0]), contract, events[1..], ws)
  }

  const EMPTY: Workspace := Workspace([], [], [], None)

  // ---- the loops of the page ----

  lemma KeepVariablesNext(variables: seq<Variable>, removed: string, i: nat)
    requires i < |variables|
    ensures KeepVariables(variables[i..], removed) ==
            (if variables[i].sourceStep != removed then [variables[i]] else []) + KeepVariables(variables[i + 1..], removed)
  {
    assert variables[i..][1..] == variables[i + 1..];
  }

  lemma NoVariables(removed: string)
    ensures KeepVariables([], removed) == []
  {
  }

  method FilterVariables(variables: seq<Variable>, removed: string) returns (kept: seq<Variable>)
    ensures kept == KeepVariables(variables, removed)
  {
    hide KeepVariables;
    kept := [];
    for i := 0 to |variables|
      invariant kept + KeepVariables(variables[i..], removed) == KeepVariables(variables, removed)
    {
      var v := variables[i];
      KeepVariablesNext(variables, removed, i);
      ghost var rest := KeepVariables(variables[i + 1..], removed);
      assert kept + ([v] + rest) == (kept + [v]) + rest && kept + ([] + rest) == kept + rest;
      if v.sourceStep != removed { kept := kept + [v]; }
    }
    NoVariables(removed);
  }

  method SomeSaved(variables: seq<Variable>, step: string, name: string) returns (found: bool)
    ensures found == SavedFromStep(variables, step, name)
  {
    for i := 0 to |variables|
      invariant forall j :: 0 <= j < i ==> !(variables[j].sourceStep == step && variables[j].name == name)
    {
      if variables[i].sourceStep == step && variables[i].name == name {
        assert variables[i] in variables;
        return true;
      }
    }
    return false;
  }

  lemma KeepNext(bindings: seq<Binding>, keep: Binding -> bool, i: nat)
    requires i < |bindings|
    ensures KeepBindings(bindings[i..], keep) ==
            (if keep(bindings[i]) then [bindings[i]] else []) + KeepBindings(bindings[i + 1..], keep)
  {
    assert bindings[i..][1..] == bindings[i + 1..];
  }

  method FilterBindings(ws: Workspace, removed: string) returns (kept: seq<Binding>)
    ensures kept == KeepBindings(ws.bindings, Survives(ws, removed))
  {
    hide KeepBindings;
    ghost var keep := Survives(ws, removed);
    kept := [];
    for i := 0 to |ws.bindings|
      invariant kept + KeepBindings(ws.bindings[i..], keep) == KeepBindings(ws.bindings, keep)
    {
      var b := ws.bindings[i];
      KeepNext(ws.bindings, keep, i);
      ghost var rest := KeepBindings(ws.bindings[i + 1..], keep);
      var saved := SomeSaved(ws.variables, removed, b.sourceVariable);
      assert kept + ([b] + rest) == (kept + [b]) + rest && kept + ([] + rest) == kept + rest;
      if b.targetStep != removed && !saved { kept := kept + [b]; }
    }
    NoBindings(keep);
  }

  lemma NoBindings(keep: Binding -> bool)
    ensures KeepBindings([], keep) == []
  {
  }

  method OtherBindings(bindings: seq<Binding>, step: string, id: string) returns (others: seq<Binding>)
    ensures others == KeepBindings(bindings, Elsewhere(step, id))
  {
    hide KeepBindings;
    ghost var keep := Elsewhere(step, id);
    others := [];
    for i := 0 to |bindings|
      invariant others + KeepBindings(bindings[i..], keep) == KeepBindings(bindings, keep)
    {
      var b := bindings[i];
      KeepNext(bindings, keep, i);
      ghost var rest := KeepBindings(bindings[i + 1..], keep);
      assert others + ([b] + rest) == (others + [b]) + rest && others + ([] + rest) == others + rest;
      if b.targetStep != step || b.targetFieldId != id { others := others + [b]; }
    }
    NoBindings(keep);
  }

  method DropStep(steps: seq<Step>, k: nat) returns (kept: seq<Step>)
    requires k < |steps|
    ensures kept == Without(steps, k)
  {
    kept := [];
    for i := 0 to |steps|
      invariant kept == if i <= k then steps[..i] else steps[..k] + steps[k + 1..i]
    {
      if i != k { kept := kept + [steps[i]]; }
    }
    assert steps[k + 1..|steps|] == steps[k + 1..];
  }

  method Renumber(kept: seq<Step>) returns (steps: seq<Step>)
    ensures steps == Renumbered(kept)
  {
    steps := [];
    for i := 0 to |kept|
      invariant steps == Renumbered(kept)[..i]
    {
      var base := if !Blank(kept[i].operationId) then kept[i].operationId.value else kept[i].name;
      steps := steps + [kept[i].(name := Numbered(base, i + 1))];
    }
  }

  lemma RenamedAt(kept: seq<Step>, i: nat)
    requires i < |kept| && forall j :: 0 <= j < i ==> kept[j].name != kept[i].name
    ensures Renamed(kept, kept[i].name) == NewName(kept, i)
  {
    hide FirstIndex, NewName;
    var r := FirstIndex(kept, kept[i].name);
    assert r == i;
  }

  lemma RenamedNowhere(kept: seq<Step>, name: string)
    requires forall j :: 0 <= j < |kept| ==> kept[j].name != name
    ensures Renamed(kept, name) == name
  {
    hide FirstIndex, NewName;
  }

  /** `find` over the pairs of an old and a new name. */
  method NewNameOf(kept: seq<Step>, steps: seq<Step>, name: string) returns (to: string)
    requires steps == Renumbered(kept)
    ensures to == Renamed(kept, name)
  {
    hide Renamed, NewName;
    for i := 0 to |kept|
      invariant forall j :: 0 <= j < i ==> kept[j].name != name
    {
      if kept[i].name == name {
        RenamedAt(kept, i);
        return steps[i].name;
      }
    }
    RenamedNowhere(kept, name);
    return name;
  }

  method FollowVariables(kept: seq<Step>, steps: seq<Step>, variables: seq<Variable>) returns (renamed: seq<Variable>)
    requires steps == Renumbered(kept)
    ensures renamed == RenameVariables(kept, variables)
  {
    hide Renamed;
    renamed := [];
    for i := 0 to |variables|
      invariant renamed == RenameVariables(kept, variables)[..i]
    {
      var to := NewNameOf(kept, steps, variables[i].sourceStep);
      renamed := renamed + [variables[i].(sourceStep := to)];
    }
  }

  method FollowBindings(kept: seq<Step>, steps: seq<Step>, bindings: seq<Binding>) returns (renamed: seq<Binding>)
    requires steps == Renumbered(kept)
    ensures renamed == RenameBindings(kept, bindings)
  {
    hide Renamed;
    renamed := [];
    for i := 0 to |bindings|
      invariant renamed == RenameBindings(kept, bindings)[..i]
    {
      var to := NewNameOf(kept, steps, bindings[i].targetStep);
      renamed := renamed + [bindings[i].(targetStep := to)];
    }
  }

  /** Copies of the steps and of the fields of one of them, with one value written into the copy. */
  method WriteValue(steps: seq<Step>, k: nat, f: nat, value: string) returns (written: seq<Step>)
    requires k < |steps| && f < |steps[k].requestFields|
    ensures |written| == |steps| && forall i :: 0 <= i < |steps| && i != k ==> written[i] == steps[i]
    ensures written[k] == steps[k].(requestFields := written[k].requestFields)
    ensures |written[k].requestFields| == |steps[k].requestFields|
    ensures forall j :: 0 <= j < |steps[k].requestFields| && j != f ==> written[k].requestFields[j] == steps[k].requestFields[j]
    ensures written[k].requestFields[f] == steps[k].requestFields[f].(value := value)
  {
    var fields := new Field[|steps[k].requestFields|](i requires 0 <= i < |steps[k].requestFields| => steps[k].requestFields[i]);
    var copies := new Step[|steps|](i requires 0 <= i < |steps| => steps[i]);
    fields[f] := fields[f].(value := value);
    copies[k] := copies[k].(requestFields := fields[..]);
    return copies[..];
  }

  lemma WrittenIsSet(ws: Workspace, k: nat, f: nat, value: string, written: seq<Step>)
    requires k < |ws.steps| && f < |ws.steps[k].requestFields|
    requires |written| == |ws.steps| && forall i :: 0 <= i < |ws.steps| && i != k ==> written[i] == ws.steps[i]
    requires written[k] == ws.steps[k].(requestFields := written[k].requestFields)
    requires |written[k].requestFields| == |ws.steps[k].requestFields|
    requires forall j :: 0 <= j < |written[k].requestFields| && j != f ==>
               written[k].requestFields[j] == ws.steps[k].requestFields[j]
    requires written[k].requestFields[f] == ws.steps[k].requestFields[f].(value := value)
    ensures ws.(steps := written) == SetField(ws, k, f, value)
  {
    var step := ws.steps[k];
    assert written[k].requestFields == step.requestFields[f := step.requestFields[f].(value := value)];
    assert written == SetField(ws, k, f, value).steps;
  }

  /** The step is the operation's: its method, its route, its fields without values, and a name that ends in its number. */
  predicate Copies(step: Step, contract: Contract, op: Operation, n: nat) {
    step.name == (if op.name == "" then op.id else op.name) + " " + Decimal(n)
    && step.method_ == op.method_ && step.path == op.path
    && step.operationId == Some(op.id) && step.fingerprint == Some(contract.fingerprint)
    && |step.requestFields| == |op.requestFields| && |step.responseFields| == |op.responseFields|
    && (forall i :: 0 <= i < |op.requestFields| ==> step.requestFields[i] == op.requestFields[i].(value := ""))
    && forall i :: 0 <= i < |op.responseFields| ==> step.responseFields[i] == op.responseFields[i].(value := "")
  }

  /** Field `f` of step `k` shows that text; apart from the bindings nothing else has changed. */
  predicate Showing(before: Workspace, after: Workspace, k: nat, f: nat, text: string) {
    after.variables == before.variables && after.fingerprint == before.fingerprint && |after.steps| == |before.steps|
    && forall i :: 0 <= i < |before.steps| ==>
         var step, step' := before.steps[i], after.steps[i];
         step' == step.(requestFields := step'.requestFields) && |step'.requestFields| == |step.requestFields|
         && forall j :: 0 <= j < |step.requestFields| ==>
              step'.requestFields[j] == if i == k && j == f then step.requestFields[j].(value := text) else step.requestFields[j]
  }

  /** The page's own state and its handlers. */
  class ApiBuilderPage {
    var workspace: Workspace
    const contract: Contract

    constructor (contract: Contract)
      ensures workspace == EMPTY && this.contract == contract
    {
      this.contract := contract;
      workspace := EMPTY;
    }

    method AddOperation(id: string) returns (added: bool)
      modifies this`workspace
      ensures added <==> exists op :: op in contract.operations && op.id == id
      ensures !added ==> workspace == old(workspace)
      ensures added ==> exists i :: 0 <= i < |contract.operations| && contract.operations[i].id == id
                          && (forall j :: 0 <= j < i ==> contract.operations[j].id != id)
                          && workspace == Add(old(workspace), contract, contract.operations[i])
                          && Copies(workspace.steps[|workspace.steps| - 1], contract, contract.operations[i], |workspace.steps|)
      ensures added ==> |workspace.steps| == |old(workspace.steps)| + 1 && workspace.steps[..|old(workspace.steps)|] == old(workspace.steps)
                        && workspace == old(workspace).(steps := workspace.steps, fingerprint := Some(contract.fingerprint))
    {
      for i := 0 to |contract.operations|
        invariant workspace == old(workspace)
        invariant forall j :: 0 <= j < i ==> contract.operations[j].id != id
      {
        if contract.operations[i].id == id {
          workspace := Add(workspace, contract, contract.operations[i]);
          return true;
        }
      }
      return false;
    }

    method SaveVariable(k: nat, f: nat, typed: string, position: nat) returns (saved: bool)
      requires k < |workspace.steps| && f < |workspace.steps[k].responseFields| && position <= |workspace.variables|
      modifies this`workspace
      ensures workspace == Save(old(workspace), k, f, typed, position)
      ensures saved <==> IsWord(Trim(typed)) && forall v :: v in old(workspace.variables) ==> Fold(v.name) != Fold(Trim(typed))
      ensures !saved ==> workspace == old(workspace)
      ensures saved ==>
                workspace == old(workspace).(variables := workspace.variables)
                && |workspace.variables| == |old(workspace.variables)| + 1
                && (forall i :: 0 <= i < position ==> workspace.variables[i] == old(workspace.variables[i]))
                && (forall i :: position <= i < |old(workspace.variables)| ==>
                      workspace.variables[i + 1] == old(workspace.variables[i]))
                && var variable, step := workspace.variables[position], old(workspace.steps[k]);
                   variable.name == Trim(typed) && variable.sourceStep == step.name
                   && variable.jsonPath == step.responseFields[f].jsonPath && variable.typeName == step.responseFields[f].typeName
    {
      hide Trim, IsWord, Fold;
      var name, field := Trim(typed), workspace.steps[k].responseFields[f];
      if !IsWord(name) { return false; }
      var taken := FindTaken(workspace.variables, name);
      if taken { return false; }
      var variable := Variable(name, workspace.steps[k].name, field.jsonPath, field.typeName);
      var before := workspace.variables;
      workspace := workspace.(variables := before[..position] + [variable] + before[position..]);
      return true;
    }

    method AssignVariable(k: nat, f: nat, name: string)
      requires k < |workspace.steps| && f < |workspace.steps[k].requestFields|
      modifies this`workspace
      ensures workspace == Assign(old(workspace), k, f, name)
      ensures var step, field := old(workspace.steps[k].name), old(workspace.steps[k].requestFields[f]);
              var id := if field.id.Some? then field.id.value else "";
              (forall b :: b in workspace.bindings <==>
                (b in old(workspace.bindings) && (b.targetStep != step || b.targetFieldId != id))
                || (name != "" && b == Binding(name, step, id)))
              && (name != "" ==> workspace.bindings != [] && workspace.bindings[|workspace.bindings| - 1] == Binding(name, step, id))
      ensures Showing(old(workspace), workspace, k, f, if name != "" then "${" + name + "}" else "")
    {
      var step, id := workspace.steps[k].name, FieldId(workspace.steps[k].requestFields[f]);
      var bindings := OtherBindings(workspace.bindings, step, id);
      if name != "" { bindings := bindings + [Binding(name, step, id)]; }
      var shown := if name != "" then "${" + name + "}" else "";
      var steps := WriteValue(workspace.steps, k, f, shown);
      WrittenIsSet(workspace, k, f, shown, steps);
      workspace := workspace.(steps := steps, bindings := bindings);
    }

    method EditField(k: nat, f: nat, text: string)
      requires k < |workspace.steps| && f < |workspace.steps[k].requestFields|
      modifies this`workspace
      ensures workspace == SetField(old(workspace), k, f, text)
      ensures Showing(old(workspace), workspace, k, f, text) && workspace.bindings == old(workspace.bindings)
    {
      var steps := WriteValue(workspace.steps, k, f, text);
      WrittenIsSet(workspace, k, f, text, steps);
      workspace := workspace.(steps := steps);
    }

    method RemoveOperation(k: nat)
      requires k < |workspace.steps|
      modifies this`workspace
      ensures workspace == Remove(old(workspace), k)
    {
      var removed := workspace.steps[k].name;
      var variables := FilterVariables(workspace.variables, removed);
      var bindings := FilterBindings(workspace, removed);
      var kept := DropStep(workspace.steps, k);
      var steps := Renumber(kept);
      variables := FollowVariables(kept, steps, variables);
      bindings := FollowBindings(kept, steps, bindings);
      workspace := workspace.(steps := steps, variables := variables, bindings := bindings);
    }
  }
}
