/** What each complaint of the server about a workspace means, said by the workspace's own names, paths and flags. */
module BindingRules {
  import opened Optional
  import opened Text
  import opened Workspaces

  // ---- what a binding names ----

  predicate StepCalled(ws: Workspace, k: nat, name: string) { k < |ws.steps| && Fold(ws.steps[k].name) == Fold(name) }

  predicate VariableCalled(ws: Workspace, k: nat, name: string) { k < |ws.variables| && Fold(ws.variables[k].name) == Fold(name) }

  predicate Returns(step: Step, k: nat, path: string) {
    k < |step.responseFields| && Fold(step.responseFields[k].jsonPath) == Fold(path)
  }

  predicate Asks(step: Step, k: nat, id: string) {
    k < |step.requestFields| && step.requestFields[k].id.Some? && step.requestFields[k].id.value == id
  }

  ghost predicate TwoSteps(ws: Workspace, name: string) {
    exists i: nat, j: nat :: i < j && StepCalled(ws, i, name) && StepCalled(ws, j, name)
  }

  ghost predicate TwoVariables(ws: Workspace, name: string) {
    exists i: nat, j: nat :: i < j && VariableCalled(ws, i, name) && VariableCalled(ws, j, name)
  }

  ghost predicate TwoReturned(step: Step, path: string) {
    exists i: nat, j: nat :: i < j && Returns(step, i, path) && Returns(step, j, path)
  }

  ghost predicate TwoAsked(step: Step, id: string) { exists i: nat, j: nat :: i < j && Asks(step, i, id) && Asks(step, j, id) }

  lemma FindStepIs(ws: Workspace, name: string)
    ensures var r := Find(ws.steps, StepNamed(name));
            (r.Several? <==> TwoSteps(ws, name)) && (r.Absent? <==> forall j: nat :: !StepCalled(ws, j, name))
            && (r.At? ==> StepCalled(ws, r.index, name) && forall j: nat :: StepCalled(ws, j, name) ==> j == r.index)
  {
    hide Find, Fold;
    FindIs(ws.steps, StepNamed(name));
    assert forall j: nat :: StepCalled(ws, j, name) <==> j < |ws.steps| && StepNamed(name)(ws.steps[j]);
  }

  lemma FindVariableIs(ws: Workspace, name: string)
    ensures var r := Find(ws.variables, VariableNamed(name));
            (r.Several? <==> TwoVariables(ws, name)) && (r.Absent? <==> forall j: nat :: !VariableCalled(ws, j, name))
            && (r.At? ==> VariableCalled(ws, r.index, name) && forall j: nat :: VariableCalled(ws, j, name) ==> j == r.index)
  {
    hide Find, Fold;
    FindIs(ws.variables, VariableNamed(name));
    assert forall j: nat :: VariableCalled(ws, j, name) <==> j < |ws.variables| && VariableNamed(name)(ws.variables[j]);
  }

  lemma FindReturnedIs(step: Step, path: string)
    ensures var r := Find(step.responseFields, FieldNamed(path));
            (r.Several? <==> TwoReturned(step, path)) && (r.Absent? <==> forall j: nat :: !Returns(step, j, path))
            && (r.At? ==> Returns(step, r.index, path) && forall j: nat :: Returns(step, j, path) ==> j == r.index)
  {
    hide Find, Fold;
    FindIs(step.responseFields, FieldNamed(path));
    assert forall j: nat :: Returns(step, j, path) <==> j < |step.responseFields| && FieldNamed(path)(step.responseFields[j]);
  }

  lemma FindAskedIs(step: Step, id: string)
    ensures var r := Find(step.requestFields, FieldWithId(id));
            (r.Several? <==> TwoAsked(step, id)) && (r.Absent? <==> forall j: nat :: !Asks(step, j, id))
            && (r.At? ==> Asks(step, r.index, id) && forall j: nat :: Asks(step, j, id) ==> j == r.index)
  {
    hide Find;
    FindIs(step.requestFields, FieldWithId(id));
    assert forall j: nat :: Asks(step, j, id) <==> j < |step.requestFields| && FieldWithId(id)(step.requestFields[j]);
  }

  lemma FindIs<T>(xs: seq<T>, p: T -> bool)
    ensures var r := Find(xs, p);
            (r.Several? <==> exists i, j :: 0 <= i < j < |xs| && p(xs[i]) && p(xs[j]))
            && (r.Absent? <==> forall j :: 0 <= j < |xs| ==> !p(xs[j]))
            && (r.At? ==> r.index < |xs| && p(xs[r.index]) && forall j :: 0 <= j < |xs| && p(xs[j]) ==> j == r.index)
  {
  }

  // ---- the fields that are joined ----

  const SECRETS: seq<string> :=
    ["password", "confirmPassword", "token", "accessToken", "refreshToken", "authorization", "secret", "connectionString"]

  /** One of the words stands in the name, ignoring case. */
  predicate Secret(name: string) { exists k, i :: 0 <= k < |SECRETS| && 0 <= i <= |name| && StandsAt(SECRETS[k], name, i) }

  predicate StandsAt(word: string, name: string, i: nat) { i <= |name| && Fold(word) <= Fold(name)[i..] }

  /** A credential header: any header whose name is a secret, which `authorization` is. */
  predicate Credential(f: Field) { f.location.Some? && Fold(f.location.value) == Fold("Header") && Secret(f.name) }

  /** A value of one type can be sent as the other: the same type, or an integer as a decimal. */
  predicate Sendable(source: string, target: string) {
    Fold(source) == Fold(target) || (Fold(source) == Fold("Int") && Fold(target) == Fold("Decimal"))
  }

  /** Some step was made from another contract than the one that the workspace says it is about. */
  predicate Outdated(ws: Workspace) {
    exists k :: 0 <= k < |ws.steps| && (match (ws.fingerprint, ws.steps[k].fingerprint)
      case (Some(f), Some(g)) => f != "" && g != "" && f != g
      case _ => false)
  }

  lemma FoldedIs(s: string, lower: string)
    requires |s| == |lower| && forall i :: 0 <= i < |s| ==> FoldChar(s[i]) == lower[i]
    ensures Fold(s) == lower
  {
    hide Fold;
  }

  lemma FoldedWords()
    ensures Fold("Header") == "header" && Fold("Int") == "int" && Fold("Decimal") == "decimal"
  {
    hide Fold;
    FoldedIs("Header", "header");
    FoldedIs("Int", "int");
    FoldedIs("Decimal", "decimal");
  }

  /** The words that the check looks for, all in lower case. */
  const LOWER: seq<string> :=
    ["password", "confirmpassword", "token", "accesstoken", "refreshtoken", "authorization", "secret", "connectionstring"]

  lemma FoldedSecrets()
    ensures forall k :: 0 <= k < 8 ==> Fold(SECRETS[k]) == LOWER[k]
  {
    hide Fold;
    FoldedIs("password", "password");
    FoldedIs("confirmPassword", "confirmpassword");
    FoldedIs("token", "token");
    FoldedIs("accessToken", "accesstoken");
    FoldedIs("refreshToken", "refreshtoken");
    FoldedIs("authorization", "authorization");
    FoldedIs("secret", "secret");
    FoldedIs("connectionString", "connectionstring");
  }

  lemma CredentialExactly(f: Field)
    ensures CredentialTarget(f) <==> Credential(f)
  {
    hide Fold;
    FoldedWords();
    SecretExactly(f.name);
    if Fold(f.name) == "authorization" { AuthorizationIsSecret(f.name); }
  }

  lemma AuthorizationIsSecret(name: string)
    requires Fold(name) == "authorization"
    ensures Secret(name)
  {
    hide Fold;
    FoldedSecrets();
    assert Fold(name)[0..] == LOWER[5];
    assert StandsAt(SECRETS[5], name, 0);
  }

  lemma SecretExactly(name: string)
    ensures SensitiveName(name) <==> Secret(name)
  {
    hide Fold;
    FoldedSecrets();
    forall k, i: nat | 0 <= k < 8 ensures StandsAt(SECRETS[k], name, i) <==> i <= |name| && PartAt(Fold(name), LOWER[k], i) {
      if i + |LOWER[k]| <= |name| { assert Fold(name)[i..][..|LOWER[k]|] == Fold(name)[i..i + |LOWER[k]|]; }
    }
    if SensitiveName(name) {
      var w :| w in LOWER && ContainsText(Fold(name), w);
      var k :| 0 <= k < 8 && LOWER[k] == w;
      var i: nat :| i <= |name| && PartAt(Fold(name), w, i);
      assert StandsAt(SECRETS[k], name, i);
    }
    if Secret(name) {
      var k, i :| 0 <= k < |SECRETS| && 0 <= i <= |name| && StandsAt(SECRETS[k], name, i);
      assert LOWER[k] in LOWER && PartAt(Fold(name), LOWER[k], i);
    }
  }

  lemma SendableExactly(source: string, target: string)
    ensures Compatible(source, target) <==> Sendable(source, target)
  {
    hide Fold;
    FoldedWords();
  }

  lemma OutdatedExactly(ws: Workspace)
    ensures Stale(ws) <==> Outdated(ws)
  {
    if Stale(ws) {
      var s :| s in ws.steps && !Blank(s.fingerprint) && s.fingerprint != ws.fingerprint;
      var k :| 0 <= k < |ws.steps| && ws.steps[k] == s;
    }
    if Outdated(ws) {
      var k :| 0 <= k < |ws.steps| && (match (ws.fingerprint, ws.steps[k].fingerprint)
        case (Some(f), Some(g)) => f != "" && g != "" && f != g
        case _ => false);
      assert ws.steps[k] in ws.steps;
    }
  }

  // ---- complaints about one binding ----

  /** `t` is the one step that the binding goes to, and not the first. */
  ghost predicate To(ws: Workspace, b: Binding, t: nat) {
    1 <= t && StepCalled(ws, t, b.targetStep) && forall j: nat :: StepCalled(ws, j, b.targetStep) ==> j == t
  }

  /** So is `v` the one variable. */
  ghost predicate Of(ws: Workspace, b: Binding, t: nat, v: nat) {
    To(ws, b, t) && VariableCalled(ws, v, b.sourceVariable) && forall j: nat :: VariableCalled(ws, j, b.sourceVariable) ==> j == v
  }

  /** And `s` the one step that saves it, an earlier one. */
  ghost predicate From(ws: Workspace, b: Binding, t: nat, v: nat, s: nat) {
    Of(ws, b, t, v) && s < t && StepCalled(ws, s, ws.variables[v].sourceStep)
    && forall j: nat :: StepCalled(ws, j, ws.variables[v].sourceStep) ==> j == s
  }

  /** And `r` the one response field. */
  ghost predicate Reads(ws: Workspace, b: Binding, t: nat, v: nat, s: nat, r: nat) {
    From(ws, b, t, v, s) && Returns(ws.steps[s], r, ws.variables[v].jsonPath)
    && forall j: nat :: Returns(ws.steps[s], j, ws.variables[v].jsonPath) ==> j == r
  }

  /** And `f` the one request field. */
  ghost predicate Joins(ws: Workspace, b: Binding, t: nat, v: nat, s: nat, r: nat, f: nat) {
    Reads(ws, b, t, v, s, r) && Asks(ws.steps[t], f, b.targetFieldId)
    && forall j: nat :: Asks(ws.steps[t], j, b.targetFieldId) ==> j == f
  }

  predicate Guarded(source: Field, target: Field) { source.sensitive || target.sensitive || Credential(target) }

  /** The complaint about a binding, told by what it joins; without one it is accepted. */
  ghost predicate Judged(ws: Workspace, b: Binding, t: nat, v: nat, s: nat, r: nat, f: nat, fault: Option<Fault>) {
    Joins(ws, b, t, v, s, r, f)
    && var source, target := ws.steps[s].responseFields[r], ws.steps[t].requestFields[f];
       match fault
       case Some(Sensitive) => Guarded(source, target)
       case Some(Incompatible) => !Guarded(source, target) && !Sendable(source.typeName, target.typeName)
       case Some(ContractChanged) => !Guarded(source, target) && Sendable(source.typeName, target.typeName) && Outdated(ws)
       case None => !Guarded(source, target) && Sendable(source.typeName, target.typeName) && !Outdated(ws)
       case _ => false
  }

  /** Something that the binding names is there twice, and all that is looked up before it is there once. */
  ghost predicate Twice(ws: Workspace, b: Binding) {
    TwoSteps(ws, b.targetStep)
    || (exists t: nat :: To(ws, b, t) && TwoVariables(ws, b.sourceVariable))
    || (exists t: nat, v: nat :: Of(ws, b, t, v) && TwoSteps(ws, ws.variables[v].sourceStep))
    || (exists t: nat, v: nat, s: nat :: From(ws, b, t, v, s) && TwoReturned(ws.steps[s], ws.variables[v].jsonPath))
    || (exists t: nat, v: nat, s: nat, r: nat :: Reads(ws, b, t, v, s, r) && TwoAsked(ws.steps[t], b.targetFieldId))
  }

  ghost predicate NotEarlier(ws: Workspace, name: string, t: nat) {
    !TwoSteps(ws, name) && forall j: nat :: StepCalled(ws, j, name) ==> t <= j
  }

  ghost predicate Complaint(ws: Workspace, b: Binding, fault: Option<Fault>) {
    match fault
    case Some(Ambiguous) => Twice(ws, b)
    case Some(TargetNotLater) => forall j: nat :: StepCalled(ws, j, b.targetStep) ==> j == 0
    case Some(VariableUnknown) => exists t: nat :: To(ws, b, t) && forall j: nat :: !VariableCalled(ws, j, b.sourceVariable)
    case Some(SourceNotEarlier) => exists t: nat, v: nat :: Of(ws, b, t, v) && NotEarlier(ws, ws.variables[v].sourceStep, t)
    case Some(SourceFieldUnknown) =>
      exists t: nat, v: nat, s: nat :: From(ws, b, t, v, s) && forall j: nat :: !Returns(ws.steps[s], j, ws.variables[v].jsonPath)
    case Some(TargetFieldUnknown) =>
      exists t: nat, v: nat, s: nat, r: nat :: Reads(ws, b, t, v, s, r) && forall j: nat :: !Asks(ws.steps[t], j, b.targetFieldId)
    case _ => exists t: nat, v: nat, s: nat, r: nat, f: nat :: Judged(ws, b, t, v, s, r, f, fault)
  }

  lemma JoinsThere(ws: Workspace, b: Binding, t: nat, v: nat, s: nat, r: nat, f: nat)
    requires Joins(ws, b, t, v, s, r, f)
    ensures s < t < |ws.steps| && r < |ws.steps[s].responseFields| && f < |ws.steps[t].requestFields|
  {
  }

  lemma JudgedIs(ws: Workspace, b: Binding, t: nat, v: nat, s: nat, r: nat, f: nat, fault: Option<Fault>)
    requires Joins(ws, b, t, v, s, r, f)
    ensures Judged(ws, b, t, v, s, r, f, fault) <==> fault == FieldsFault(ws, ws.steps[s].responseFields[r], ws.steps[t].requestFields[f])
  {
    JoinsThere(ws, b, t, v, s, r, f);
    hide Joins, CredentialTarget, Credential, Compatible, Sendable, Stale, Outdated;
    var source, target := ws.steps[s].responseFields[r], ws.steps[t].requestFields[f];
    CredentialExactly(target);
    SendableExactly(source.typeName, target.typeName);
    OutdatedExactly(ws);
  }

  lemma OnlyTarget(ws: Workspace, b: Binding, t: nat)
    requires To(ws, b, t)
    ensures 1 <= t < |ws.steps| && !TwoSteps(ws, b.targetStep) && StepCalled(ws, t, b.targetStep)
    ensures forall u: nat :: To(ws, b, u) ==> u == t
    ensures forall u: nat, v: nat :: Of(ws, b, u, v) ==> u == t
    ensures forall u: nat, v: nat, s: nat :: From(ws, b, u, v, s) ==> u == t
    ensures forall u: nat, v: nat, s: nat, r: nat :: Reads(ws, b, u, v, s, r) ==> u == t
    ensures forall u: nat, v: nat, s: nat, r: nat, f: nat :: Joins(ws, b, u, v, s, r, f) ==> u == t
  {
  }

  lemma OnlyVariable(ws: Workspace, b: Binding, t: nat, v: nat)
    requires Of(ws, b, t, v)
    ensures v < |ws.variables| && !TwoVariables(ws, b.sourceVariable) && VariableCalled(ws, v, b.sourceVariable)
    ensures forall u: nat, w: nat :: Of(ws, b, u, w) ==> w == v
    ensures forall u: nat, w: nat, s: nat :: From(ws, b, u, w, s) ==> w == v
    ensures forall u: nat, w: nat, s: nat, r: nat :: Reads(ws, b, u, w, s, r) ==> w == v
    ensures forall u: nat, w: nat, s: nat, r: nat, f: nat :: Joins(ws, b, u, w, s, r, f) ==> w == v
  {
    hide To;
  }

  lemma OnlySource(ws: Workspace, b: Binding, t: nat, v: nat, s: nat)
    requires From(ws, b, t, v, s)
    ensures v < |ws.variables| && s < t && !TwoSteps(ws, ws.variables[v].sourceStep) && StepCalled(ws, s, ws.variables[v].sourceStep)
    ensures forall x: nat :: From(ws, b, t, v, x) ==> x == s
    ensures forall x: nat, r: nat :: Reads(ws, b, t, v, x, r) ==> x == s
    ensures forall x: nat, r: nat, f: nat :: Joins(ws, b, t, v, x, r, f) ==> x == s
  {
    hide To;
  }

  lemma OnlyReturned(ws: Workspace, b: Binding, t: nat, v: nat, s: nat, r: nat)
    requires Reads(ws, b, t, v, s, r)
    ensures s < t < |ws.steps| && v < |ws.variables| && r < |ws.steps[s].responseFields|
    ensures !TwoReturned(ws.steps[s], ws.variables[v].jsonPath)
    ensures forall x: nat :: Reads(ws, b, t, v, s, x) ==> x == r
    ensures forall x: nat, f: nat :: Joins(ws, b, t, v, s, x, f) ==> x == r
  {
  }

  lemma OnlyAsked(ws: Workspace, b: Binding, t: nat, v: nat, s: nat, r: nat, f: nat)
    requires Joins(ws, b, t, v, s, r, f)
    ensures s < t < |ws.steps| && f < |ws.steps[t].requestFields| && !TwoAsked(ws.steps[t], b.targetFieldId)
    ensures forall x: nat :: Joins(ws, b, t, v, s, r, x) ==> x == f
  {
  }

  // ---- main results ----

  /** What is judged is joined. */
  lemma Judging(ws: Workspace, b: Binding, fault: Option<Fault>)
    ensures forall t: nat, v: nat, s: nat, r: nat, f: nat :: Judged(ws, b, t, v, s, r, f, fault) ==> Joins(ws, b, t, v, s, r, f)
  {
    hide Joins;
  }

  /** What a joined binding meets on the way. */
  lemma Stages(ws: Workspace, b: Binding, t: nat, v: nat, s: nat, r: nat, f: nat)
    requires Joins(ws, b, t, v, s, r, f)
    ensures 1 <= t && s < t < |ws.steps| && v < |ws.variables|
    ensures StepCalled(ws, t, b.targetStep) && VariableCalled(ws, v, b.sourceVariable) && StepCalled(ws, s, ws.variables[v].sourceStep)
    ensures Returns(ws.steps[s], r, ws.variables[v].jsonPath) && Asks(ws.steps[t], f, b.targetFieldId)
  {
  }

  lemma AtFields(ws: Workspace, b: Binding, t: nat, v: nat, s: nat, r: nat, f: nat, fault: Option<Fault>)
    requires Joins(ws, b, t, v, s, r, f)
    ensures s < t < |ws.steps| && r < |ws.steps[s].responseFields| && f < |ws.steps[t].requestFields|
    ensures Complaint(ws, b, fault) <==> fault == FieldsFault(ws, ws.steps[s].responseFields[r], ws.steps[t].requestFields[f])
  {
    OnlyTarget(ws, b, t);
    OnlyVariable(ws, b, t, v);
    OnlySource(ws, b, t, v, s);
    OnlyReturned(ws, b, t, v, s, r);
    OnlyAsked(ws, b, t, v, s, r, f);
    JudgedIs(ws, b, t, v, s, r, f, fault);
    Judging(ws, b, fault);
    Stages(ws, b, t, v, s, r, f);
    hide To, Of, From, Reads, Joins, Judged, StepCalled, VariableCalled, Returns, Asks;
    hide TwoSteps, TwoVariables, TwoReturned, TwoAsked, FieldsFault;
  }

  lemma ReadsIs(ws: Workspace, b: Binding, t: nat, v: nat, s: nat)
    requires From(ws, b, t, v, s)
    ensures 1 <= t && s < t < |ws.steps| && v < |ws.variables|
    ensures forall r: nat :: Reads(ws, b, t, v, s, r) <==>
              Returns(ws.steps[s], r, ws.variables[v].jsonPath)
              && forall j: nat :: Returns(ws.steps[s], j, ws.variables[v].jsonPath) ==> j == r
    ensures forall r: nat, f: nat :: Joins(ws, b, t, v, s, r, f) <==>
              Reads(ws, b, t, v, s, r) && Asks(ws.steps[t], f, b.targetFieldId)
              && forall j: nat :: Asks(ws.steps[t], j, b.targetFieldId) ==> j == f
    ensures forall u: nat, w: nat, x: nat :: From(ws, b, u, w, x) ==> u == t && w == v && x == s
    ensures forall u: nat, w: nat, x: nat, r: nat :: Reads(ws, b, u, w, x, r) ==> u == t && w == v && x == s
    ensures forall u: nat, w: nat, x: nat, r: nat, f: nat :: Joins(ws, b, u, w, x, r, f) ==> u == t && w == v && x == s
  {
    OnlyTarget(ws, b, t);
    OnlyVariable(ws, b, t, v);
    OnlySource(ws, b, t, v, s);
  }

  /** What can still be complained of once the source is found. */
  ghost predicate FieldComplaint(ws: Workspace, b: Binding, t: nat, v: nat, s: nat, fault: Option<Fault>)
    requires s < t < |ws.steps| && v < |ws.variables|
  {
    match fault
    case Some(Ambiguous) =>
      TwoReturned(ws.steps[s], ws.variables[v].jsonPath)
      || exists r: nat :: Reads(ws, b, t, v, s, r) && TwoAsked(ws.steps[t], b.targetFieldId)
    case Some(SourceFieldUnknown) => forall j: nat :: !Returns(ws.steps[s], j, ws.variables[v].jsonPath)
    case Some(TargetFieldUnknown) => exists r: nat :: Reads(ws, b, t, v, s, r) && forall j: nat :: !Asks(ws.steps[t], j, b.targetFieldId)
    case _ => exists r: nat, f: nat :: Judged(ws, b, t, v, s, r, f, fault)
  }

  lemma AtFound(ws: Workspace, b: Binding, t: nat, v: nat, s: nat, fault: Option<Fault>)
    requires From(ws, b, t, v, s)
    ensures s < t < |ws.steps| && v < |ws.variables|
    ensures Complaint(ws, b, fault) <==> FieldComplaint(ws, b, t, v, s, fault)
  {
    OnlyTarget(ws, b, t);
    OnlyVariable(ws, b, t, v);
    OnlySource(ws, b, t, v, s);
    ReadsIs(ws, b, t, v, s);
    Judging(ws, b, fault);
    FoundParts(ws, b, t, v, s);
    hide To, Of, From, Reads, Joins, Judged, StepCalled, VariableCalled, Returns, Asks;
    hide TwoSteps, TwoVariables, TwoReturned, TwoAsked;
  }

  lemma FoundParts(ws: Workspace, b: Binding, t: nat, v: nat, s: nat)
    requires From(ws, b, t, v, s)
    ensures 1 <= t && To(ws, b, t) && Of(ws, b, t, v) && v < |ws.variables| && s < t < |ws.steps|
    ensures StepCalled(ws, t, b.targetStep) && VariableCalled(ws, v, b.sourceVariable) && StepCalled(ws, s, ws.variables[v].sourceStep)
  {
  }

  lemma NoReads(ws: Workspace, b: Binding, t: nat, v: nat, s: nat, r: nat)
    requires Reads(ws, b, t, v, s, r)
    ensures s < t < |ws.steps| && v < |ws.variables| && Find(ws.steps[s].responseFields, FieldNamed(ws.variables[v].jsonPath)).At?
  {
    OnlyReturned(ws, b, t, v, s, r);
    FindReturnedIs(ws.steps[s], ws.variables[v].jsonPath);
  }

  lemma JudgedReads(ws: Workspace, b: Binding, t: nat, v: nat, s: nat, fault: Option<Fault>)
    ensures forall r: nat, f: nat :: Judged(ws, b, t, v, s, r, f, fault) ==> Reads(ws, b, t, v, s, r)
  {
    hide Reads;
  }

  /** No single response field. */
  lemma NoField(ws: Workspace, b: Binding, t: nat, v: nat, s: nat, fault: Option<Fault>)
    requires From(ws, b, t, v, s) && s < t < |ws.steps| && v < |ws.variables|
    requires !Find(ws.steps[s].responseFields, FieldNamed(ws.variables[v].jsonPath)).At?
    ensures FieldComplaint(ws, b, t, v, s, fault) <==>
              fault == Some(if Find(ws.steps[s].responseFields, FieldNamed(ws.variables[v].jsonPath)).Several? then Ambiguous else SourceFieldUnknown)
  {
    hide From, Reads, Joins, Judged, Returns, Asks, TwoAsked, Find, TwoReturned;
    forall r: nat ensures !Reads(ws, b, t, v, s, r) {
      if Reads(ws, b, t, v, s, r) { NoReads(ws, b, t, v, s, r); }
    }
    JudgedReads(ws, b, t, v, s, fault);
    FindReturnedIs(ws.steps[s], ws.variables[v].jsonPath);
  }

  lemma NoJoins(ws: Workspace, b: Binding, t: nat, v: nat, s: nat, fault: Option<Fault>)
    requires t < |ws.steps| && !Find(ws.steps[t].requestFields, FieldWithId(b.targetFieldId)).At?
    ensures forall r: nat, f: nat :: !Judged(ws, b, t, v, s, r, f, fault)
  {
    hide Reads, Judged, Asks, Find;
    FindAskedIs(ws.steps[t], b.targetFieldId);
    Judging(ws, b, fault);
  }

  lemma ReadsOne(ws: Workspace, b: Binding, t: nat, v: nat, s: nat)
    requires From(ws, b, t, v, s) && s < |ws.steps| && v < |ws.variables|
    requires Find(ws.steps[s].responseFields, FieldNamed(ws.variables[v].jsonPath)).At?
    ensures Reads(ws, b, t, v, s, Find(ws.steps[s].responseFields, FieldNamed(ws.variables[v].jsonPath)).index)
  {
    hide From, Returns, Find;
    FindReturnedIs(ws.steps[s], ws.variables[v].jsonPath);
  }

  /** A single response field, but no single request field. */
  lemma NoTarget(ws: Workspace, b: Binding, t: nat, v: nat, s: nat, fault: Option<Fault>)
    requires From(ws, b, t, v, s) && s < t < |ws.steps| && v < |ws.variables|
    requires Find(ws.steps[s].responseFields, FieldNamed(ws.variables[v].jsonPath)).At?
    requires !Find(ws.steps[t].requestFields, FieldWithId(b.targetFieldId)).At?
    ensures FieldComplaint(ws, b, t, v, s, fault) <==>
              fault == Some(if Find(ws.steps[t].requestFields, FieldWithId(b.targetFieldId)).Several? then Ambiguous else TargetFieldUnknown)
  {
    hide From, Reads, Judged, Returns, Asks, TwoReturned, TwoAsked, Find;
    NoJoins(ws, b, t, v, s, fault);
    ReadsOne(ws, b, t, v, s);
    FindReturnedIs(ws.steps[s], ws.variables[v].jsonPath);
    FindAskedIs(ws.steps[t], b.targetFieldId);
  }

  lemma AtSource(ws: Workspace, b: Binding, t: nat, v: nat, s: nat, fault: Option<Fault>)
    requires From(ws, b, t, v, s)
    ensures t < |ws.steps| && v < |ws.variables| && (Complaint(ws, b, fault) <==> fault == SourceFault(ws, b, t, ws.variables[v]))
  {
    hide Complaint, FieldComplaint, From, Reads, Joins, Returns, Asks, TwoSteps, TwoReturned, TwoAsked, FieldsFault, Find;
    AtFound(ws, b, t, v, s, fault);
    SourceIs(ws, b, t, v, s);
    var saved := Find(ws.steps[s].responseFields, FieldNamed(ws.variables[v].jsonPath));
    var filled := Find(ws.steps[t].requestFields, FieldWithId(b.targetFieldId));
    if !saved.At? {
      NoField(ws, b, t, v, s, fault);
    } else if !filled.At? {
      NoTarget(ws, b, t, v, s, fault);
    } else {
      JoinsAre(ws, b, t, v, s);
      AtFields(ws, b, t, v, s, saved.index, filled.index, fault);
    }
  }

  lemma SourceIs(ws: Workspace, b: Binding, t: nat, v: nat, s: nat)
    requires From(ws, b, t, v, s)
    ensures s < t < |ws.steps| && v < |ws.variables| && Find(ws.steps, StepNamed(ws.variables[v].sourceStep)) == At(s)
  {
    FoundParts(ws, b, t, v, s);
    OnlySource(ws, b, t, v, s);
    FindStepIs(ws, ws.variables[v].sourceStep);
  }

  lemma JoinsAre(ws: Workspace, b: Binding, t: nat, v: nat, s: nat)
    requires From(ws, b, t, v, s) && s < t < |ws.steps| && v < |ws.variables|
    requires Find(ws.steps[s].responseFields, FieldNamed(ws.variables[v].jsonPath)).At?
    requires Find(ws.steps[t].requestFields, FieldWithId(b.targetFieldId)).At?
    ensures Joins(ws, b, t, v, s, Find(ws.steps[s].responseFields, FieldNamed(ws.variables[v].jsonPath)).index,
              Find(ws.steps[t].requestFields, FieldWithId(b.targetFieldId)).index)
  {
    hide From, Returns, Asks, Find;
    ReadsIs(ws, b, t, v, s);
    FindReturnedIs(ws.steps[s], ws.variables[v].jsonPath);
    FindAskedIs(ws.steps[t], b.targetFieldId);
  }

  /** Whatever is joined comes from somewhere, of some variable, to some step. */
  lemma Chained(ws: Workspace, b: Binding, fault: Option<Fault>)
    ensures forall t: nat, v: nat :: Of(ws, b, t, v) ==> To(ws, b, t)
    ensures forall t: nat, v: nat, s: nat :: From(ws, b, t, v, s) ==> Of(ws, b, t, v)
    ensures forall t: nat, v: nat, s: nat, r: nat :: Reads(ws, b, t, v, s, r) ==> From(ws, b, t, v, s)
    ensures forall t: nat, v: nat, s: nat, r: nat, f: nat :: Judged(ws, b, t, v, s, r, f, fault) ==> Reads(ws, b, t, v, s, r)
  {
    hide To;
  }

  /** `s` would be the source. */
  lemma FromIs(ws: Workspace, b: Binding, t: nat, v: nat, s: nat)
    requires Of(ws, b, t, v)
    ensures t < |ws.steps| && v < |ws.variables| && VariableCalled(ws, v, b.sourceVariable)
    ensures From(ws, b, t, v, s) <==> Find(ws.steps, StepNamed(ws.variables[v].sourceStep)) == At(s) && s < t
  {
    OnlyVariable(ws, b, t, v);
    OnlyTarget(ws, b, t);
    hide Of, Find, StepCalled;
    FindStepIs(ws, ws.variables[v].sourceStep);
  }

  /** No single step saves the variable, or not an earlier one. */
  lemma NoSource(ws: Workspace, b: Binding, t: nat, v: nat, fault: Option<Fault>)
    requires Of(ws, b, t, v)
    ensures t < |ws.steps| && v < |ws.variables|
    ensures var source := Find(ws.steps, StepNamed(ws.variables[v].sourceStep));
            !(source.At? && source.index < t) ==>
              (Complaint(ws, b, fault) <==> fault == Some(if source.Several? then Ambiguous else SourceNotEarlier))
  {
    hide To, Of, From, Reads, Joins, Judged, StepCalled, VariableCalled, Returns, Asks;
    hide TwoSteps, TwoVariables, TwoReturned, TwoAsked, Find;
    Chained(ws, b, fault);
    OnlyTarget(ws, b, t);
    OnlyVariable(ws, b, t, v);
    forall s: nat ensures From(ws, b, t, v, s) <==> Find(ws.steps, StepNamed(ws.variables[v].sourceStep)) == At(s) && s < t {
      FromIs(ws, b, t, v, s);
    }
    FindStepIs(ws, ws.variables[v].sourceStep);
  }

  lemma AtVariable(ws: Workspace, b: Binding, t: nat, v: nat, fault: Option<Fault>)
    requires Of(ws, b, t, v)
    ensures t < |ws.steps| && v < |ws.variables| && (Complaint(ws, b, fault) <==> fault == SourceFault(ws, b, t, ws.variables[v]))
  {
    hide Of, From, Complaint, Find, FieldsFault;
    NoSource(ws, b, t, v, fault);
    var source := Find(ws.steps, StepNamed(ws.variables[v].sourceStep));
    if source.At? && source.index < t {
      FromIs(ws, b, t, v, source.index);
      AtSource(ws, b, t, v, source.index, fault);
    }
  }

  lemma OfIs(ws: Workspace, b: Binding, t: nat, v: nat)
    requires To(ws, b, t)
    ensures Of(ws, b, t, v) <==> Find(ws.variables, VariableNamed(b.sourceVariable)) == At(v)
  {
    hide To, Find, VariableCalled;
    FindVariableIs(ws, b.sourceVariable);
  }

  lemma NoVariable(ws: Workspace, b: Binding, t: nat, fault: Option<Fault>)
    requires To(ws, b, t)
    ensures var variable := Find(ws.variables, VariableNamed(b.sourceVariable));
            !variable.At? ==> (Complaint(ws, b, fault) <==> fault == Some(if variable.Several? then Ambiguous else VariableUnknown))
  {
    hide To, Of, From, Reads, Joins, Judged, StepCalled, VariableCalled, Returns, Asks;
    hide TwoSteps, TwoVariables, TwoReturned, TwoAsked, Find;
    Chained(ws, b, fault);
    OnlyTarget(ws, b, t);
    forall v: nat ensures Of(ws, b, t, v) <==> Find(ws.variables, VariableNamed(b.sourceVariable)) == At(v) { OfIs(ws, b, t, v); }
    FindVariableIs(ws, b.sourceVariable);
  }

  lemma ToIs(ws: Workspace, b: Binding, t: nat)
    ensures To(ws, b, t) <==> Find(ws.steps, StepNamed(b.targetStep)) == At(t) && t >= 1
  {
    hide Find, StepCalled;
    FindStepIs(ws, b.targetStep);
  }

  lemma NoTargetStep(ws: Workspace, b: Binding, fault: Option<Fault>)
    ensures var target := Find(ws.steps, StepNamed(b.targetStep));
            !(target.At? && target.index >= 1) ==>
              (Complaint(ws, b, fault) <==> fault == Some(if target.Several? then Ambiguous else TargetNotLater))
  {
    hide To, Of, From, Reads, Joins, Judged, StepCalled, VariableCalled, Returns, Asks, TwoVariables, TwoReturned, TwoAsked, Find;
    Chained(ws, b, fault);
    forall t: nat ensures To(ws, b, t) <==> Find(ws.steps, StepNamed(b.targetStep)) == At(t) && t >= 1 { ToIs(ws, b, t); }
    FindStepIs(ws, b.targetStep);
  }

  /** Main result: which complaint the server makes about a binding, or none. */
  lemma BindingExactly(ws: Workspace, b: Binding, fault: Option<Fault>)
    ensures BindingFault(ws, b) == fault <==> Complaint(ws, b, fault)
  {
    hide To, Of, Complaint, Find, SourceFault;
    NoTargetStep(ws, b, fault);
    var target, variable := Find(ws.steps, StepNamed(b.targetStep)), Find(ws.variables, VariableNamed(b.sourceVariable));
    if target.At? && target.index >= 1 {
      ToIs(ws, b, target.index);
      NoVariable(ws, b, target.index, fault);
      if variable.At? {
        OfIs(ws, b, target.index, variable.index);
        AtVariable(ws, b, target.index, variable.index, fault);
      }
    }
  }

  // ---- the whole workspace ----

  /** The names that the runner supplies. */
  const SUPPLIED: seq<string> := ["unique", "shortUnique", "nowIso", "futureStartIso", "futureEndIso", "authToken"]

  /** A letter, a digit or an underscore. */
  predicate Wordly(c: char) { 'a' <= c <= 'z' || 'A' <= c <= 'Z' || '0' <= c <= '9' || c == '_' || c as int >= 0x80 }

  /** A variable with a proper name that the runner does not supply, of a named step, below the root. */
  predicate SoundVariable(v: Variable) {
    |v.name| > 0 && (forall i :: 0 <= i < |v.name| ==> Wordly(v.name[i]))
    && (forall k :: 0 <= k < |SUPPLIED| ==> Fold(SUPPLIED[k]) != Fold(v.name))
    && Trim(v.sourceStep) != "" && Rooted(v.jsonPath, '$')
  }

  predicate Rooted(path: string, root: char) { |path| > 0 && path[0] == root }

  predicate SoundField(f: Field) { Trim(f.name) != "" && Rooted(f.jsonPath, '$') }

  predicate SoundStep(s: Step) {
    Trim(s.name) != "" && Trim(s.method_) != "" && Rooted(s.path, '/')
    && (forall i :: 0 <= i < |s.requestFields| ==> SoundField(s.requestFields[i]))
    && forall i :: 0 <= i < |s.responseFields| ==> SoundField(s.responseFields[i])
  }

  lemma BlankExactly(s: string)
    ensures IsBlank(s) <==> Trim(s) == ""
  {
    hide Trim;
    var before, after := TrimExactly(s);
    if Trim(s) != "" { assert s[|before|] == Trim(s)[0]; }
  }

  lemma SuppliedExactly(name: string)
    ensures Reserved(name) <==> exists k :: 0 <= k < |SUPPLIED| && Fold(SUPPLIED[k]) == Fold(name)
  {
    hide Fold;
    FoldedIs("unique", "unique");
    FoldedIs("shortUnique", "shortunique");
    FoldedIs("nowIso", "nowiso");
    FoldedIs("futureStartIso", "futurestartiso");
    FoldedIs("futureEndIso", "futureendiso");
    FoldedIs("authToken", "authtoken");
    assert SUPPLIED[0] == "unique" && SUPPLIED[1] == "shortUnique" && SUPPLIED[2] == "nowIso" && SUPPLIED[3] == "futureStartIso"
           && SUPPLIED[4] == "futureEndIso" && SUPPLIED[5] == "authToken";
  }

  lemma VariableExactly(v: Variable)
    ensures VariableOk(v) <==> SoundVariable(v)
  {
    hide Fold, Reserved, Trim, IsBlank;
    SuppliedExactly(v.name);
    BlankExactly(v.sourceStep);
  }

  lemma FieldExactly(f: Field)
    ensures FieldOk(f) <==> SoundField(f)
  {
    hide Trim, IsBlank;
    BlankExactly(f.name);
  }

  lemma StepExactly(s: Step)
    ensures StepOk(s) <==> SoundStep(s)
  {
    hide Trim, IsBlank, FieldOk, SoundField;
    BlankExactly(s.name);
    BlankExactly(s.method_);
    forall f ensures FieldOk(f) <==> SoundField(f) { FieldExactly(f); }
  }

  /** The first binding that is complained about. */
  ghost predicate FirstComplaint(ws: Workspace, k: nat, fault: Fault) {
    k < |ws.bindings| && Complaint(ws, ws.bindings[k], Some(fault)) && forall j :: 0 <= j < k ==> Complaint(ws, ws.bindings[j], None)
  }

  /** What the server says about a workspace: bad variables first, then names there twice, ignoring case, then bad steps,
      and then the first complaint about a binding, if there is any. */
  ghost predicate Verdict(ws: Workspace, fault: Option<Fault>) {
    if exists k :: 0 <= k < |ws.variables| && !SoundVariable(ws.variables[k]) then fault == Some(BadVariable)
    else if exists i, j :: 0 <= i < j < |ws.variables| && Fold(ws.variables[i].name) == Fold(ws.variables[j].name) then
      fault == Some(DuplicateVariable)
    else if exists k :: 0 <= k < |ws.steps| && !SoundStep(ws.steps[k]) then fault == Some(BadStep)
    else if fault.Some? then exists k: nat :: FirstComplaint(ws, k, fault.value)
    else forall k :: 0 <= k < |ws.bindings| ==> Complaint(ws, ws.bindings[k], None)
  }

  /** Main result: what the server says about a workspace as a whole. */
  lemma ValidateExactly(ws: Workspace, fault: Option<Fault>)
    ensures Validate(ws) == fault <==> Verdict(ws, fault)
  {
    hide VariableOk, SoundVariable, StepOk, SoundStep, Fold, BindingsFault, Complaint;
    forall v ensures VariableOk(v) <==> SoundVariable(v) { VariableExactly(v); }
    forall s ensures StepOk(s) <==> SoundStep(s) { StepExactly(s); }
    FirstFault(ws, 0, fault);
    assert ws.bindings[0..] == ws.bindings;
    if fault.Some? {
      assert Some(fault.value) == fault;
      if k: nat :| k < |ws.bindings| && Complaint(ws, ws.bindings[k], fault) && forall j :: 0 <= j < k ==> Complaint(ws, ws.bindings[j], None) {
        assert FirstComplaint(ws, k, fault.value);
      }
    }
    assert (exists v :: v in ws.variables && !VariableOk(v)) <==> exists k :: 0 <= k < |ws.variables| && !SoundVariable(ws.variables[k]);
    assert (exists s :: s in ws.steps && !StepOk(s)) <==> exists k :: 0 <= k < |ws.steps| && !SoundStep(ws.steps[k]);
  }

  lemma {:induction false} FirstFault(ws: Workspace, from_: nat, fault: Option<Fault>)
    requires from_ <= |ws.bindings|
    ensures BindingsFault(ws, ws.bindings[from_..]) == fault <==>
              if fault.Some? then
                exists k: nat :: from_ <= k < |ws.bindings| && Complaint(ws, ws.bindings[k], fault)
                  && forall j :: from_ <= j < k ==> Complaint(ws, ws.bindings[j], None)
              else forall k :: from_ <= k < |ws.bindings| ==> Complaint(ws, ws.bindings[k], None)
    decreases |ws.bindings| - from_
  {
    hide Complaint, BindingFault;
    if from_ < |ws.bindings| {
      var rest := ws.bindings[from_..];
      assert rest[1..] == ws.bindings[from_ + 1..];
      FirstFault(ws, from_ + 1, fault);
      BindingExactly(ws, rest[0], fault);
      BindingExactly(ws, rest[0], None);
    }
  }
}
