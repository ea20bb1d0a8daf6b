/** The API builder's workspace and the checks the server makes before it stores or compiles one. */
module Workspaces {
  import opened Optional
  import opened Text

  datatype Field = Field(
    name: string, jsonPath: string, typeName: string, value: string, id: Option<string>, location: Option<string>, sensitive: bool)

  datatype Step = Step(
    name: string, method_: string, path: string, requestFields: seq<Field>, responseFields: seq<Field>,
    operationId: Option<string>, fingerprint: Option<string>)

  datatype Variable = Variable(name: string, sourceStep: string, jsonPath: string, typeName: string)

  datatype Binding = Binding(sourceVariable: string, targetStep: string, targetFieldId: string)

  datatype Workspace = Workspace(
    variables: seq<Variable>, steps: seq<Step>, bindings: seq<Binding>, fingerprint: Option<string>)

  datatype Fault =
    | BadVariable | DuplicateVariable | BadStep | TargetNotLater | VariableUnknown | SourceNotEarlier | SourceFieldUnknown
    | TargetFieldUnknown | Sensitive | Incompatible | ContractChanged | Ambiguous

  /** `Single` and `SingleOrDefault` over a filtered list: absent, exactly one, or an exception. */
  datatype Found = Absent | At(index: nat) | Several

  function Find<T>(xs: seq<T>, p: T -> bool): (r: Found)
    ensures r.At? ==> r.index < |xs| && p(xs[r.index]) && forall j :: 0 <= j < |xs| && p(xs[j]) ==> j == r.index
    ensures r.Absent? ==> forall j :: 0 <= j < |xs| ==> !p(xs[j])
    ensures r.Several? ==> exists i, j :: 0 <= i < j < |xs| && p(xs[i]) && p(xs[j])
  {
    if xs == [] then Absent
    else
      var before := Find(xs[..|xs| - 1], p);
      if !p(xs[|xs| - 1]) then before
      else if before.Absent? then At(|xs| - 1) else Several
  }

  lemma FindUnique<T>(xs: seq<T>, p: T -> bool, i: nat)
    requires i < |xs| && p(xs[i]) && forall j :: 0 <= j < |xs| && p(xs[j]) ==> j == i
    ensures Find(xs, p) == At(i)
  {
  }

  predicate WordChar(c: char) { IsUpper(c) || IsLower(c) || IsDigit(c) || c == '_' || c >= '\U{0080}' }

  /** Letters, digits and underscores; outside ASCII every character passes as a letter. */
  predicate IsWord(s: string) { s != "" && forall i :: 0 <= i < |s| ==> WordChar(s[i]) }

  predicate Reserved(name: string) {
    Fold(name) in {"unique", "shortunique", "nowiso", "futurestartiso", "futureendiso", "authtoken"}
  }

  function FieldNamed(path: string): Field -> bool { (f: Field) => Fold(f.jsonPath) == Fold(path) }

  function FieldWithId(id: string): Field -> bool { (f: Field) => f.id == Some(id) }

  function StepNamed(name: string): Step -> bool { (s: Step) => Fold(s.name) == Fold(name) }

  function VariableNamed(name: string): Variable -> bool { (v: Variable) => Fold(v.name) == Fold(name) }

  predicate VariableOk(v: Variable) {
    IsWord(v.name) && !Reserved(v.name) && !IsBlank(v.sourceStep) && StartsWith(v.jsonPath, "$")
  }

  predicate FieldOk(f: Field) { !IsBlank(f.name) && StartsWith(f.jsonPath, "$") }

  predicate StepOk(s: Step) {
    !IsBlank(s.name) && !IsBlank(s.method_) && StartsWith(s.path, "/")
    && (forall f :: f in s.requestFields ==> FieldOk(f)) && (forall f :: f in s.responseFields ==> FieldOk(f))
  }

  predicate DistinctNames(variables: seq<Variable>) {
    forall i, j :: 0 <= i < j < |variables| ==> Fold(variables[i].name) != Fold(variables[j].name)
  }

  predicate Compatible(source: string, target: string) {
    Fold(source) == Fold(target) || (Fold(source) == "int" && Fold(target) == "decimal")
  }

  predicate SensitiveName(name: string) {
    exists w :: w in ["password", "confirmpassword", "token", "accesstoken", "refreshtoken", "authorization", "secret", "connectionstring"]
      && ContainsText(Fold(name), w)
  }

  predicate CredentialTarget(f: Field) {
    f.location.Some? && Fold(f.location.value) == "header" && (Fold(f.name) == "authorization" || SensitiveName(f.name))
  }

  predicate Blank(s: Option<string>) { s.None? || s.value == "" }

  predicate Stale(ws: Workspace) {
    !Blank(ws.fingerprint) && exists s :: s in ws.steps && !Blank(s.fingerprint) && s.fingerprint != ws.fingerprint
  }

  /** The first complaint about one binding, in the order in which the server makes them. */
  function BindingFault(ws: Workspace, b: Binding): Option<Fault> {
    var target := Find(ws.steps, StepNamed(b.targetStep));
    if target.Several? then Some(Ambiguous)
    else if target.Absent? || target.index < 1 then Some(TargetNotLater)
    else
      var variable := Find(ws.variables, VariableNamed(b.sourceVariable));
      if variable.Several? then Some(Ambiguous)
      else if variable.Absent? then Some(VariableUnknown)
      else SourceFault(ws, b, target.index, ws.variables[variable.index])
  }

  function SourceFault(ws: Workspace, b: Binding, target: nat, v: Variable): Option<Fault>
    requires target < |ws.steps|
  {
    var source := Find(ws.steps, StepNamed(v.sourceStep));
    if source.Several? then Some(Ambiguous)
    else if source.Absent? || source.index >= target then Some(SourceNotEarlier)
    else
      var saved := Find(ws.steps[source.index].responseFields, FieldNamed(v.jsonPath));
      var filled := Find(ws.steps[target].requestFields, FieldWithId(b.targetFieldId));
      if saved.Several? then Some(Ambiguous)
      else if saved.Absent? then Some(SourceFieldUnknown)
      else if filled.Several? then Some(Ambiguous)
      else if filled.Absent? then Some(TargetFieldUnknown)
      else FieldsFault(ws, ws.steps[source.index].responseFields[saved.index], ws.steps[target].requestFields[filled.index])
  }

  function FieldsFault(ws: Workspace, source: Field, target: Field): Option<Fault> {
    if source.sensitive || target.sensitive || CredentialTarget(target) then Some(Sensitive)
    else if !Compatible(source.typeName, target.typeName) then Some(Incompatible)
    else if Stale(ws) then Some(ContractChanged)
    else None
  }

  function BindingsFault(ws: Workspace, bindings: seq<Binding>): Option<Fault> {
    if bindings == [] then None
    else if BindingFault(ws, bindings[0]).Some? then BindingFault(ws, bindings[0])
    else BindingsFault(ws, bindings[1..])
  }

  /** `Validate`, after the checks of the workspace's own metadata; `None` accepts. */
  function Validate(ws: Workspace): Option<Fault> {
    if exists v :: v in ws.variables && !VariableOk(v) then Some(BadVariable)
    else if !DistinctNames(ws.variables) then Some(DuplicateVariable)
    else if exists s :: s in ws.steps && !StepOk(s) then Some(BadStep)
    else BindingsFault(ws, ws.bindings)
  }

  lemma {:induction false} BindingsAccepted(ws: Workspace, bindings: seq<Binding>)
    ensures BindingsFault(ws, bindings).None? <==> forall b :: b in bindings ==> BindingFault(ws, b).None?
  {
    hide BindingFault;
    if bindings != [] {
      BindingsAccepted(ws, bindings[1..]);
      assert forall b :: b in bindings <==> b == bindings[0] || b in bindings[1..];
    }
  }

  /** What acceptance of a binding means: a later target step, a variable of that name, an earlier source
      step with the saved field, a target field of a compatible type. */
  predicate Accepted(ws: Workspace, b: Binding, s: nat, t: nat, v: nat) {
    s < t < |ws.steps| && v < |ws.variables|
    && Fold(ws.steps[t].name) == Fold(b.targetStep) && Fold(ws.variables[v].name) == Fold(b.sourceVariable)
    && Fold(ws.steps[s].name) == Fold(ws.variables[v].sourceStep)
    && (exists i :: 0 <= i < |ws.steps[s].responseFields| && Fold(ws.steps[s].responseFields[i].jsonPath) == Fold(ws.variables[v].jsonPath))
    && (forall k :: 0 <= k < |ws.steps| && Fold(ws.steps[k].name) == Fold(b.targetStep) ==> k == t)
  }

  lemma AcceptedBinding(ws: Workspace, b: Binding) returns (s: nat, t: nat, v: nat)
    requires BindingFault(ws, b).None?
    ensures Accepted(ws, b, s, t, v)
  {
    t := Find(ws.steps, StepNamed(b.targetStep)).index;
    v := Find(ws.variables, VariableNamed(b.sourceVariable)).index;
    s := Find(ws.steps, StepNamed(ws.variables[v].sourceStep)).index;
    assert forall k :: 0 <= k < |ws.steps| ==> (StepNamed(b.targetStep)(ws.steps[k]) <==> Fold(ws.steps[k].name) == Fold(b.targetStep));
    assert StepNamed(b.targetStep)(ws.steps[t]) && VariableNamed(b.sourceVariable)(ws.variables[v]);
    assert StepNamed(ws.variables[v].sourceStep)(ws.steps[s]);
    var i := Find(ws.steps[s].responseFields, FieldNamed(ws.variables[v].jsonPath)).index;
    assert FieldNamed(ws.variables[v].jsonPath)(ws.steps[s].responseFields[i]);
  }

  /** The one element of the list that meets the condition. */
  predicate Only<T>(xs: seq<T>, p: T -> bool, i: nat) {
    i < |xs| && p(xs[i]) && forall j :: 0 <= j < |xs| && p(xs[j]) ==> j == i
  }

  lemma FindExactly<T>(xs: seq<T>, p: T -> bool, i: nat)
    ensures Find(xs, p) == At(i) <==> Only(xs, p, i)
  {
    if Only(xs, p, i) { FindUnique(xs, p, i); }
  }

  /** Step `t` is the only target, `v` the only variable of the name, `s` its only and earlier source; `r` and `f` are
      the only fields meant, and they may be joined. */
  predicate Bindable(ws: Workspace, b: Binding, s: nat, t: nat, v: nat, r: nat, f: nat) {
    Only(ws.steps, StepNamed(b.targetStep), t) && Only(ws.variables, VariableNamed(b.sourceVariable), v)
    && Only(ws.steps, StepNamed(ws.variables[v].sourceStep), s) && s < t
    && Only(ws.steps[s].responseFields, FieldNamed(ws.variables[v].jsonPath), r)
    && Only(ws.steps[t].requestFields, FieldWithId(b.targetFieldId), f)
    && var source, target := ws.steps[s].responseFields[r], ws.steps[t].requestFields[f];
       !source.sensitive && !target.sensitive && !CredentialTarget(target) && Compatible(source.typeName, target.typeName)
       && !Stale(ws)
  }

  lemma BindableAccepted(ws: Workspace, b: Binding, s: nat, t: nat, v: nat, r: nat, f: nat)
    requires Bindable(ws, b, s, t, v, r, f)
    ensures BindingFault(ws, b).None?
  {
    hide Find, StepNamed, VariableNamed, FieldNamed, FieldWithId, CredentialTarget, Compatible, Stale, Only;
    FindExactly(ws.steps, StepNamed(b.targetStep), t);
    FindExactly(ws.variables, VariableNamed(b.sourceVariable), v);
    FindExactly(ws.steps, StepNamed(ws.variables[v].sourceStep), s);
    FindExactly(ws.steps[s].responseFields, FieldNamed(ws.variables[v].jsonPath), r);
    FindExactly(ws.steps[t].requestFields, FieldWithId(b.targetFieldId), f);
  }

  /** The server accepts a binding exactly when all of that is so, for some steps, variable and fields. */
  lemma BindingExactly(ws: Workspace, b: Binding)
    ensures BindingFault(ws, b).None? <==>
              exists s: nat, t: nat, v: nat, r: nat, f: nat :: Bindable(ws, b, s, t, v, r, f)
  {
    hide StepNamed, VariableNamed, FieldNamed, FieldWithId, CredentialTarget, Compatible, Stale;
    if BindingFault(ws, b).None? {
      var t := Find(ws.steps, StepNamed(b.targetStep)).index;
      var v := Find(ws.variables, VariableNamed(b.sourceVariable)).index;
      var s := Find(ws.steps, StepNamed(ws.variables[v].sourceStep)).index;
      var r := Find(ws.steps[s].responseFields, FieldNamed(ws.variables[v].jsonPath)).index;
      var f := Find(ws.steps[t].requestFields, FieldWithId(b.targetFieldId)).index;
      assert Bindable(ws, b, s, t, v, r, f);
    }
    if s: nat, t: nat, v: nat, r: nat, f: nat :| Bindable(ws, b, s, t, v, r, f) {
      BindableAccepted(ws, b, s, t, v, r, f);
    }
  }
}
