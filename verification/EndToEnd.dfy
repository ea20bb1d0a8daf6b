/** From the editor to a run: what the pieces guarantee together, and what they do not. */
module EndToEnd {
  import opened Optional
  import opened Text
  import opened Workspaces
  import opened PathTemplates
  import opened Compiler
  import opened CompiledNames
  import opened CompilerSafety
  import opened Editor
  import opened EditorInvariant
  import opened Validator
  import opened Guards
  import opened Routes
  import EditorServer
  import opened PreflightShape
  import opened Refusals
  import Preflight
  import Runner
  import D = Dictionaries
  import S = Steps
  import T = Templates

  lemma UniqueIdsAreKeys(fields: seq<Field>)
    requires UniqueIds(fields)
    ensures UniqueKeys(fields)
  {
  }

  lemma {:induction false} SavesDistinct(variables: seq<Variable>, step: string)
    requires DistinctNames(variables)
    ensures DistinctKeys(Saves(variables, step))
  {
    hide Fold, Saves;
    if variables == [] {
      SavesNext(variables, step);
    } else {
      var rest := Saves(variables[1..], step);
      SavesDistinct(variables[1..], step);
      SavesNext(variables, step);
      forall j | 0 <= j < |rest| ensures Fold(rest[j].0) != Fold(variables[0].name) {
        assert rest[j] in rest;
        var v :| v in variables[1..] && rest[j] == (v.name, v.jsonPath);
        var k :| 0 <= k < |variables[1..]| && variables[1..][k] == v;
        assert variables[k + 1] == v;
      }
      ConsDistinct((variables[0].name, variables[0].jsonPath), rest);
    }
  }

  lemma SavesNext(variables: seq<Variable>, step: string)
    ensures variables == [] ==> Saves(variables, step) == []
    ensures variables != [] ==>
              var first, rest := (variables[0].name, variables[0].jsonPath), Saves(variables[1..], step);
              Saves(variables, step) == rest || Saves(variables, step) == [first] + rest
  {
    hide Fold;
  }

  lemma ConsDistinct(first: (string, string), rest: Fields)
    requires DistinctKeys(rest) && forall j :: 0 <= j < |rest| ==> Fold(rest[j].0) != Fold(first.0)
    ensures DistinctKeys([first] + rest)
  {
    hide Fold;
    var all := [first] + rest;
    forall i, j | 0 <= i < j < |all| ensures Fold(all[i].0) != Fold(all[j].0) {
      assert all[j] == rest[j - 1] && (i > 0 ==> all[i] == rest[i - 1]);
    }
  }

  lemma SavedFieldFound(ws: Workspace, contract: Contract, i: nat, p: (string, string))
    requires Inv(ws, contract) && i < |ws.steps| && p in Saves(ws.variables, ws.steps[i].name)
    ensures exists f :: f in ws.steps[i].responseFields && Fold(f.jsonPath) == Fold(p.1)
  {
    hide Ends, OneBindingEach, BindingSound, Saves, StepsOk;
    var step := ws.steps[i];
    var v :| v in ws.variables && Fold(v.sourceStep) == Fold(step.name) && p == (v.name, v.jsonPath);
    assert VariableSound(ws, v);
    var s: nat, r: nat :| SavedFrom(ws, v, s, r);
    StepNamesDistinct(ws.steps, i, s);
    assert step.responseFields[r] in step.responseFields;
  }

  /** Every non-empty workspace that the editor can reach compiles. */
  lemma EditorCompiles(ws: Workspace, contract: Contract)
    requires Inv(ws, contract) && ws.steps != []
    ensures Compilable(ws)
  {
    hide Ends, OneBindingEach, BindingSound, FromContract, Saves, Numbering, DistinctNames, VariableSound, UniqueKeys, UniqueIds, DistinctKeys;
    forall i | 0 <= i < |ws.steps| ensures Compiles(ws, ws.steps[i]) {
      var step := ws.steps[i];
      assert step in ws.steps;
      UniqueIdsAreKeys(step.requestFields);
      SavesDistinct(ws.variables, step.name);
      assert AllReturned(Saves(ws.variables, step.name), step.responseFields) by {
        forall p | p in Saves(ws.variables, step.name) ensures exists f :: f in step.responseFields && Fold(f.jsonPath) == Fold(p.1) {
          SavedFieldFound(ws, contract, i, p);
        }
      }
    }
  }

  /** A compiled step asserts nothing of the body and expects no error code. */
  lemma CompiledTransparent(ws: Workspace, step: Step, catalogue: Option<S.Catalogue>, declared: set<string>)
    ensures Preflight.TransparentStep(CompiledStep(ws, step), catalogue, declared)
  {
    hide CompiledPath, RawObject, Headers, Body, Saves;
    assert S.JsonOf(CompiledStep(ws, step)) == [];
    assert Preflight.AddedEntries(CompiledStep(ws, step), catalogue) == [];
  }

  lemma {:induction false} CompiledAllTransparent(ws: Workspace, t: nat, catalogue: Option<S.Catalogue>, declared: set<string>)
    requires t <= |ws.steps|
    ensures Preflight.TransparentSteps(CompiledSteps(ws)[t..], catalogue, declared)
    decreases |ws.steps| - t
  {
    hide CompiledStep, Preflight.TransparentStep, After;
    if t < |ws.steps| {
      var steps := CompiledSteps(ws);
      assert steps[t..][0] == steps[t] && steps[t..][1..] == steps[t + 1..];
      CompiledTransparent(ws, ws.steps[t], catalogue, declared);
      CompiledAllTransparent(ws, t + 1, catalogue, After(steps[t], declared));
    }
  }

  lemma {:induction false} UnknownUnbroken(step: string, names: seq<string>, declared: set<string>)
    ensures NoneBroken(Unknown(step, names, declared))
  {
    hide T.IsEnvironment, Fold;
    if names != [] { UnknownUnbroken(step, names[1..], declared); }
  }

  lemma {:induction false} UnknownInUnbroken(step: string, texts: seq<string>, declared: set<string>)
    ensures NoneBroken(UnknownIn(step, texts, declared))
  {
    hide Unknown, T.Variables;
    if texts != [] {
      UnknownUnbroken(step, T.Variables(texts[0]), declared);
      UnknownInUnbroken(step, texts[1..], declared);
    }
  }

  /** A compiled step breaks no structural rule. */
  lemma CompiledUnbroken(ws: Workspace, step: Step, declared: set<string>, catalogue: Option<S.Catalogue>)
    ensures NoneBroken(StepIssues(CompiledStep(ws, step), declared, false, catalogue)) && Runnable(CompiledStep(ws, step))
  {
    hide CompiledPath, RawObject, Headers, Body, Saves, UnknownIn, EnumerateTemplates;
    var compiled := CompiledStep(ws, step);
    assert ShapeIssues(compiled, false, catalogue) == [];
    UnknownInUnbroken(compiled.name, EnumerateTemplates(compiled), declared);
  }

  lemma {:induction false} CompiledAllUnbroken(ws: Workspace, t: nat, declared: set<string>, catalogue: Option<S.Catalogue>)
    requires t <= |ws.steps|
    ensures NoneBroken(IssuesFrom(CompiledSteps(ws)[t..], declared, false, catalogue))
    decreases |ws.steps| - t
  {
    hide CompiledStep, StepIssues, After;
    if t < |ws.steps| {
      var steps := CompiledSteps(ws);
      assert steps[t..][0] == steps[t] && steps[t..][1..] == steps[t + 1..];
      CompiledUnbroken(ws, ws.steps[t], declared, catalogue);
      CompiledAllUnbroken(ws, t + 1, After(steps[t], declared), catalogue);
      NoneBrokenConcat(StepIssues(steps[t], declared, false, catalogue),
        IssuesFrom(steps[t + 1..], After(steps[t], declared), false, catalogue));
    }
  }

  /** Apart from the variables bound into its steps, what the steps mention is supplied. */
  ghost predicate AllTypedSupplied(ws: Workspace) { forall t :: 0 <= t < |ws.steps| ==> TypedSupplied(ws, t) }

  /** The check has nothing at all to say about what a valid workspace compiles to, exactly when what was typed into
      it mentions supplied variables only. */
  lemma CompiledPassesTheCheck(ws: Workspace, catalogue: Option<S.Catalogue>)
    requires Validate(ws).None?
    ensures Issues(CompiledSteps(ws), [], false, catalogue) == [] <==> AllTypedSupplied(ws)
  {
    hide Validate, TypedSupplied, CompiledSteps, S.BuiltIns, IssuesFrom;
    CompilationPreservesDeclaredness(ws, catalogue);
    CompiledAllUnbroken(ws, 0, S.BuiltIns() + S.FirstKeys([]), catalogue);
    assert CompiledSteps(ws)[0..] == CompiledSteps(ws);
    if AllTypedSupplied(ws) { SilentIsEmpty(Issues(CompiledSteps(ws), [], false, catalogue)); }
  }

  lemma SilentIsEmpty(issues: seq<Issue>)
    requires NoneBroken(issues) && NoneUndeclared(issues)
    ensures issues == []
  {
    if issues != [] { FirstIssue(issues); }
  }

  lemma FirstIssue(issues: seq<Issue>)
    requires issues != []
    ensures exists i :: i in issues
  {
    assert issues[0] in issues;
  }

  /** A compiled step is one request that accepts 200 and asks for no types. */
  lemma CompiledAsks(ws: Workspace, step: Step)
    ensures var compiled := CompiledStep(ws, step);
            AllTypesKnown(compiled) && forall s :: s in Requests(compiled) ==> HasStatus(s)
  {
    hide CompiledPath, RawObject, Headers, Body, Saves;
    assert Requests(CompiledStep(ws, step)) == [CompiledStep(ws, step)];
    assert S.JsonOf(CompiledStep(ws, step)) == [];
  }

  /** Nor does the runner refuse any step of it, whatever the run. */
  lemma CompiledIsNeverRefused(ws: Workspace, t: nat, catalogue: Option<S.Catalogue>)
    requires t < |ws.steps|
    ensures NeverRefused(CompiledSteps(ws)[t], catalogue)
  {
    hide CompiledStep, StepIssues, Runnable, NeverRefused, NoneBroken, AllTypesKnown, Requests, HasStatus;
    CompiledUnbroken(ws, ws.steps[t], {}, catalogue);
    CompiledAsks(ws, ws.steps[t]);
    NeverRefusedExactly(CompiledStep(ws, ws.steps[t]), {}, catalogue);
  }

  /** The case a workspace compiles to. */
  function CompiledCase(ws: Workspace, id: string): S.CaseSpec {
    S.CaseSpec(id, exists s :: s in ws.steps && s.method_ != "GET" && s.method_ != "HEAD", [], CompiledSteps(ws))
  }

  /** No run of what such a workspace compiles to misses a variable, whatever the servers answer. */
  lemma CompiledRunsMissNothing(ws: Workspace, id: string, initial: T.Store, allowed: bool, world: Runner.World,
                                scripts: seq<Runner.Script>)
    requires Validate(ws).None? && AllTypedSupplied(ws)
    requires |scripts| == |ws.steps| && S.BuiltIns() <= initial.Keys
    ensures var r := Runner.RunCase(CompiledCase(ws, id), initial, allowed, world, scripts);
            r.Started? ==> Preflight.NoneMisses(r.run.attempts)
  {
    hide Validate, TypedSupplied, CompiledSteps, S.BuiltIns, Preflight.TransparentSteps, Issues;
    CompilationPreservesDeclaredness(ws, world.catalogue);
    CompiledAllTransparent(ws, 0, world.catalogue, S.BuiltIns() + S.FirstKeys([]));
    assert |CompiledSteps(ws)| == |ws.steps|;
    assert CompiledSteps(ws)[0..] == CompiledSteps(ws);
    Preflight.PreflightSound(CompiledCase(ws, id), initial, allowed, world, scripts);
  }

  /** Conversely, a workspace that mentions anything else has no passing run on the run's own values. */
  lemma PassingRunsAreSupplied(ws: Workspace, id: string, initial: T.Store, allowed: bool, world: Runner.World,
                               scripts: seq<Runner.Script>)
    requires |scripts| == |ws.steps| && initial.Keys == S.BuiltIns()
    ensures var r := Runner.RunCase(CompiledCase(ws, id), initial, allowed, world, scripts);
            r.Started? && r.run.outcome.Passed? ==> forall t :: 0 <= t < |ws.steps| ==> AllSupplied(ws, t)
  {
    hide AllSupplied, CompiledSteps, S.BuiltIns, Preflight.AllSentDeclared, AllDeclared, Runner.RunSteps;
    assert |CompiledSteps(ws)| == |ws.steps|;
    Preflight.PassingIsDeclared(CompiledCase(ws, id), initial, allowed, world, scripts);
    var r := Runner.RunCase(CompiledCase(ws, id), initial, allowed, world, scripts);
    if r.Started? && r.run.outcome.Passed? {
      assert S.FirstKeys([]) == {} && S.BuiltIns() + S.FirstKeys([]) == S.BuiltIns();
      assert CompiledSteps(ws)[0..] == CompiledSteps(ws);
      SentIsDeclared(ws, 0, S.BuiltIns());
      CompiledFrom(ws, 0);
    }
  }

  lemma CompiledSends(ws: Workspace, step: Step)
    ensures var body := Body(ws, step);
            Preflight.SentTemplates(CompiledStep(ws, step))
            == [CompiledPath(ws, step)] + (if body == [] then [] else [RawObject(body)]) + S.SecondsOf(Headers(ws, step))
  {
    hide CompiledPath, RawObject, Headers, Body, Saves;
    assert Runner.Described([]) == [];
  }

  /** A compiled step sends every text that the check reads. */
  lemma SentIsEnumerated(ws: Workspace, step: Step, declared: set<string>)
    requires Preflight.StepSentDeclared(CompiledStep(ws, step), declared)
    ensures StepDeclared(CompiledStep(ws, step), declared)
  {
    hide CompiledPath, RawObject, Headers, Body, Saves, AllCovered, EnumerateTemplates, Preflight.SentTemplates;
    CompiledTemplates(ws, step);
    CompiledSends(ws, step);
  }

  lemma {:induction false} SentIsDeclared(ws: Workspace, t: nat, declared: set<string>)
    requires t <= |ws.steps| && Preflight.AllSentDeclared(CompiledSteps(ws)[t..], declared)
    ensures AllDeclared(CompiledSteps(ws)[t..], declared)
    decreases |ws.steps| - t
  {
    hide CompiledStep, StepDeclared, After, Preflight.StepSentDeclared;
    if t < |ws.steps| {
      var steps := CompiledSteps(ws);
      assert steps[t..][0] == steps[t] && steps[t..][1..] == steps[t + 1..];
      SentIsEnumerated(ws, ws.steps[t], declared);
      SentIsDeclared(ws, t + 1, After(steps[t], declared));
    }
  }

  lemma ServableIsOk(contract: Contract)
    requires EditorServer.Servable(contract)
    ensures ContractOk(contract)
  {
  }

  /** The whole way: a user works in the editor, the server accepts, the compiler emits, a run begins. */
  lemma EditorRunsMissNothing(contract: Contract, events: seq<Event>, ws: Workspace, id: string, initial: T.Store,
                              allowed: bool, world: Runner.World, scripts: seq<Runner.Script>)
    requires EditorServer.Servable(contract) && Reaches(EMPTY, contract, events, ws) && ws.steps != []
    requires !EditorServer.Objectionable(ws) && AllTypedSupplied(ws)
    requires |scripts| == |ws.steps| && S.BuiltIns() <= initial.Keys
    ensures Compilable(ws) && Validate(ws).None?
    ensures var r := Runner.RunCase(CompiledCase(ws, id), initial, allowed, world, scripts);
            r.Started? ==> Preflight.NoneMisses(r.run.attempts)
  {
    hide *;
    ServableIsOk(contract);
    EditorKeepsInvariant(contract, events, ws);
    EditorServer.ServerAccepts(ws, contract);
    EditorCompiles(ws, contract);
    CompiledRunsMissNothing(ws, id, initial, allowed, world, scripts);
  }

  // ---- dollar signs in literal values ----

  /** A route with a path field that holds a literal value, right before a placeholder that no field fills. */
  predicate Leftover(ws: Workspace, step: Step, f: Field, n: string) {
    ws == Workspace([], [step], [], None) && StepOk(step) && step.requestFields == [f]
    && step.path == "/" + (Hole(f.name) + Hole(n)) && f.location == Some("path")
    && BraceFree(f.value) && BraceFree(f.name) && Fold(f.name) != Fold(n) && T.IsName(n)
  }

  lemma LeftoverFields(ws: Workspace, step: Step, f: Field, n: string)
    requires Leftover(ws, step, f, n)
    ensures Texts(ws, step, FieldsAt(step, step.requestFields, "path")) == [(f.name, f.value)]
    ensures FieldsAt(step, step.requestFields, "query") == []
    ensures FieldsAt(step, step.requestFields, "body") == [] && FieldsAt(step, step.requestFields, "header") == []
  {
    hide StepOk, Hole, Location, ValueOf, BraceFree, Fold, T.IsName;
    InPath(step, f);
    NotBound(ws, step, f);
    assert [f][1..] == [];
    NoFieldsAt(step);
    assert FieldsAt(step, [f], "path") == [f];
    assert FieldsAt(step, [f], "query") == [];
    assert FieldsAt(step, [f], "body") == [];
    assert FieldsAt(step, [f], "header") == [];
  }

  lemma NoFieldsAt(step: Step)
    ensures forall location :: FieldsAt(step, [], location) == []
  {
  }

  lemma InPath(step: Step, f: Field)
    requires f.location == Some("path")
    ensures Location(step, f) == "path"
  {
    assert forall i :: 0 <= i < 4 ==> Fold("path")[i] == "path"[i];
  }

  lemma NotBound(ws: Workspace, step: Step, f: Field)
    requires ws.bindings == []
    ensures ValueOf(ws, step, f) == f.value
  {
  }

  /** The route that comes out mentions the left-over placeholder exactly when the value before it ends in a dollar
      sign. */
  lemma LeftoverRoute(ws: Workspace, step: Step, f: Field, n: string)
    requires Leftover(ws, step, f, n)
    ensures ReplaceAll(step.path, [(f.name, f.value)]) == "/" + (f.value + Hole(n))
    ensures T.Names("/" + (f.value + Hole(n))) == if EndsInDollar(f.value) then [n] else []
  {
    hide Replace, Hole, StepOk, T.Names, T.IsName, BraceFree, Fold, ReplaceAll, EndsInDollar;
    NameIsPlain(n);
    OneReplacement(step.path, f.name, f.value);
    SlashFree();
    ReplaceSkips("/", Hole(f.name) + Hole(n), f.name, f.value);
    ReplaceHole(f.name, Hole(n), f.name, f.value);
    ReplaceHole(n, "", f.name, f.value);
    ReplaceEmpty(f.name, f.value);
    assert Hole(n) + "" == Hole(n);
    SlashValue(f.value);
    WordsNames("/" + f.value, false, Hole(n));
    assert "" + (("/" + f.value) + Hole(n)) == "/" + (f.value + Hole(n));
    T.NoDollarNoNames("");
    DollarHole(n, "");
    LoneHole(n, "");
    assert Dollar(true) + Hole(n) == "$" + Hole(n) && Dollar(false) + Hole(n) == Hole(n);
  }

  lemma SlashValue(value: string)
    requires BraceFree(value)
    ensures BraceFree("/" + value) && EndsInDollar("/" + value) == EndsInDollar(value)
  {
  }

  lemma SlashFree()
    ensures Free("/", '{')
  {
  }

  lemma NameIsPlain(n: string)
    requires T.IsName(n)
    ensures BraceFree(n)
  {
    NamesArePlain(n);
  }

  lemma LeftoverMentions(ws: Workspace, step: Step, f: Field, n: string)
    requires Leftover(ws, step, f, n)
    ensures Mentioned(ws, step) == if EndsInDollar(f.value) then [n] else []
  {
    hide StepOk, Hole, ReplaceAll, T.Names, BraceFree, Fold, T.IsName, EndsInDollar, FieldsAt, CompiledPath;
    LeftoverFields(ws, step, f, n);
    LeftoverRoute(ws, step, f, n);
    if TidyRoute(step.path, [(f.name, f.value)]) { FilledNames(step.path, [(f.name, f.value)]); }
    assert RouteNames(step.path, [(f.name, f.value)]) == T.Names(ReplaceAll(step.path, [(f.name, f.value)]));
    NoTexts(ws, step);
    assert PairNames([]) == [] && NamesOf([]) == [];
    assert S.SecondsOf([]) == [];
  }

  lemma NoTexts(ws: Workspace, step: Step)
    ensures Texts(ws, step, []) == [] && forall same: D.Norm :: D.Build(Texts(ws, step, []), same) == []
  {
  }

  lemma LeftoverAccepted(ws: Workspace, step: Step, f: Field, n: string)
    requires Leftover(ws, step, f, n)
    ensures Validate(ws).None? && Compilable(ws)
  {
    hide StepOk, Hole, BraceFree, T.IsName;
    assert Saves(ws.variables, step.name) == [];
  }

  /** Such a workspace is valid and compiles, and no `${` need be typed into it. Yet the check objects to a variable
      that nothing saves exactly when the literal value ends in a dollar sign: `5$` does before a placeholder, and
      does not at the end of a route or before anything else. */
  lemma TrailingDollarExactly(ws: Workspace, step: Step, f: Field, n: string, catalogue: Option<S.Catalogue>)
    requires Leftover(ws, step, f, n) && !T.IsEnvironment(n) && Fold(n) !in S.BuiltIns()
    ensures Validate(ws).None? && Compilable(ws)
    ensures NoneUndeclared(Issues(CompiledSteps(ws), [], false, catalogue)) <==> !EndsInDollar(f.value)
  {
    hide Leftover, S.BuiltIns, CompiledStep, T.IsEnvironment, IssuesFrom, Validate, Compilable, Mentioned, EndsInDollar, Fold;
    LeftoverAccepted(ws, step, f, n);
    LeftoverMentions(ws, step, f, n);
    LeftoverSteps(ws, step, f, n);
    SilentExactly(ws, catalogue);
    assert EndsInDollar(f.value) ==> n in Mentioned(ws, ws.steps[0]);
    assert !SavedBefore(ws, 0, n);
    assert AllSupplied(ws, 0) <==> !EndsInDollar(f.value);
  }

  lemma LeftoverSteps(ws: Workspace, step: Step, f: Field, n: string)
    requires Leftover(ws, step, f, n)
    ensures ws.steps == [step]
  {
  }
}
