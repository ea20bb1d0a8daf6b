/** A sequential chain: the cases run in order, a case that passes leaves its variables to the ones after it, and the
    first that fails ends the chain. The check has read every case on its own before. */
module Chain {
  import opened Optional
  import opened Text
  import opened Steps
  import opened Validator
  import opened Runner
  import opened Preflight
  import T = Templates

  /** What one case brings along: the values of its built-in names and what the outside does in it. */
  datatype Launch = Launch(values: string -> string, scripts: seq<Script>)

  predicate Launches(cases: seq<CaseSpec>, launches: seq<Launch>) {
    |cases| == |launches| && forall i :: 0 <= i < |cases| ==> |launches[i].scripts| == |cases[i].steps|
  }

  predicate CasePassed(r: CaseRun) { r.Started? && r.run.outcome.Passed? }

  function RunShared(test: CaseSpec, launch: Launch, shared: T.Store, allowed: bool, world: World): CaseRun
    requires |launch.scripts| == |test.steps|
  {
    RunCase(test, InitialStore(launch.values, shared), allowed, world, launch.scripts)
  }

  /** `results` holds one entry for every case that was begun. */
  datatype ChainRun = ChainRun(results: seq<CaseRun>, shared: T.Store)

  function RunFrom(cases: seq<CaseSpec>, launches: seq<Launch>, shared: T.Store, allowed: bool, world: World): ChainRun
    requires Launches(cases, launches)
  {
    if cases == [] then ChainRun([], shared)
    else
      var r := RunShared(cases[0], launches[0], shared, allowed, world);
      if !CasePassed(r) then ChainRun([r], shared)
      else
        var rest := RunFrom(cases[1..], launches[1..], shared + r.run.vars, allowed, world);
        rest.(results := [r] + rest.results)
  }

  /** One case of the chain, in place. */
  method RunInChain(test: CaseSpec, launch: Launch, shared: VariableStore, allowed: bool, world: World) returns (r: CaseRun)
    requires |launch.scripts| == |test.steps|
    modifies shared
    ensures r == RunShared(test, launch, old(shared.values), allowed, world)
    ensures shared.values == if CasePassed(r) then old(shared.values) + r.run.vars else old(shared.values)
  {
    hide RunCase;
    r := Run(test, InitialStore(launch.values, shared.values), allowed, world, launch.scripts);
    if CasePassed(r) { shared.values := shared.values + r.run.vars; }
  }

  method RunChain(cases: seq<CaseSpec>, launches: seq<Launch>, allowed: bool, world: World)
    returns (results: seq<CaseRun>, shared: VariableStore)
    requires Launches(cases, launches)
    ensures ChainRun(results, shared.values) == RunFrom(cases, launches, map[], allowed, world)
  {
    hide RunShared;
    shared := new VariableStore(map[]);
    results := [];
    ghost var whole := RunFrom(cases, launches, map[], allowed, world);
    for i := 0 to |cases|
      invariant fresh(shared)
      invariant var rest := RunFrom(cases[i..], launches[i..], shared.values, allowed, world);
                whole == rest.(results := results + rest.results)
    {
      assert cases[i..][1..] == cases[i + 1..] && launches[i..][1..] == launches[i + 1..];
      ghost var before := results;
      var r := RunInChain(cases[i], launches[i], shared, allowed, world);
      results := results + [r];
      if !CasePassed(r) { return; }
      ghost var rest := RunFrom(cases[i + 1..], launches[i + 1..], shared.values, allowed, world);
      assert before + ([r] + rest.results) == results + rest.results;
    }
  }

  // ---- what the check of the single cases gives ----

  /** The check is silent about the case, read on its own, and the case hides no variables from it. */
  predicate Checked(test: CaseSpec, world: World) {
    NoneUndeclared(Issues(test.steps, test.variables, false, world.catalogue))
    && TransparentSteps(test.steps, world.catalogue, BuiltIns() + FirstKeys(test.variables))
  }

  predicate CaseMissesNothing(r: CaseRun) { r.Started? ==> NoneMisses(r.run.attempts) }

  /** Whatever earlier cases leave behind, no attempt of any case in the chain misses a variable. */
  lemma {:induction false} ChainSound(cases: seq<CaseSpec>, launches: seq<Launch>, shared: T.Store, allowed: bool, world: World)
    requires Launches(cases, launches) && forall c :: c in cases ==> Checked(c, world)
    ensures forall r :: r in RunFrom(cases, launches, shared, allowed, world).results ==> CaseMissesNothing(r)
  {
    hide RunCase, Checked, NoneMisses;
    if cases != [] {
      assert cases[0] in cases && forall c :: c in cases[1..] ==> c in cases;
      SharedSound(cases[0], launches[0], shared, allowed, world);
      var r := RunShared(cases[0], launches[0], shared, allowed, world);
      if CasePassed(r) { ChainSound(cases[1..], launches[1..], shared + r.run.vars, allowed, world); }
    }
  }

  lemma SharedSound(test: CaseSpec, launch: Launch, shared: T.Store, allowed: bool, world: World)
    requires |launch.scripts| == |test.steps| && Checked(test, world)
    ensures CaseMissesNothing(RunShared(test, launch, shared, allowed, world))
  {
    hide RunCase, Issues, TransparentSteps, BuiltIns, NoneMisses;
    PreflightSound(test, InitialStore(launch.values, shared), allowed, world, launch.scripts);
  }

  // ---- and the other direction ----

  /** The names that are there once the steps have passed. */
  function DeclaredAfter(steps: seq<StepSpec>, declared: set<string>): set<string> {
    if steps == [] then declared else DeclaredAfter(steps[1..], After(steps[0], declared))
  }

  lemma {:induction false} RunStepsDomain(steps: seq<StepSpec>, vars: T.Store, world: World, scripts: seq<Script>)
    requires |scripts| == |steps|
    ensures var r := RunSteps(steps, vars, world, scripts);
            r.outcome.Passed? ==> r.vars.Keys == DeclaredAfter(steps, vars.Keys)
  {
    hide RunConfiguredStep, After;
    if steps != [] {
      StepDomain(steps[0], vars, world, scripts[0]);
      var first := RunConfiguredStep(steps[0], vars, world, scripts[0]);
      if first.outcome.Passed? { RunStepsDomain(steps[1..], first.vars, world, scripts[1..]); }
    }
  }

  /** What a case finds when it starts after cases that have left these names. */
  function Start(test: CaseSpec, shared: set<string>): set<string> { BuiltIns() + shared + FirstKeys(test.variables) }

  /** What the cases send mentions only what they start with, what earlier cases leave to them, or what they save. */
  predicate ChainDeclared(cases: seq<CaseSpec>, shared: set<string>) {
    cases == []
    || (AllSentDeclared(cases[0].steps, Start(cases[0], shared))
        && ChainDeclared(cases[1..], DeclaredAfter(cases[0].steps, Start(cases[0], shared))))
  }

  lemma {:induction false} DeclaredGrows(steps: seq<StepSpec>, declared: set<string>)
    ensures declared <= DeclaredAfter(steps, declared)
  {
    if steps != [] { DeclaredGrows(steps[1..], After(steps[0], declared)); }
  }

  lemma PassedLeaves(test: CaseSpec, launch: Launch, shared: T.Store, allowed: bool, world: World)
    requires |launch.scripts| == |test.steps| && CasePassed(RunShared(test, launch, shared, allowed, world))
    ensures var r := RunShared(test, launch, shared, allowed, world);
            AllSentDeclared(test.steps, Start(test, shared.Keys))
            && (shared + r.run.vars).Keys == DeclaredAfter(test.steps, Start(test, shared.Keys))
  {
    hide RunSteps, CaseVariables, AllSentDeclared, BuiltIns, DeclaredAfter;
    var initial := InitialStore(launch.values, shared);
    PassingIsDeclared(test, initial, allowed, world, launch.scripts);
    CaseVariablesDomain(test.variables, initial, world);
    RunStepsDomain(test.steps, CaseVariables(test.variables, initial, world).vars, world, launch.scripts);
    DeclaredGrows(test.steps, Start(test, shared.Keys));
  }

  /** A chain can pass only if, case by case, what is sent mentions names that the case starts with, that earlier cases
      leave to it, or that its own earlier steps save. */
  lemma {:induction false} PassingChainIsDeclared(cases: seq<CaseSpec>, launches: seq<Launch>, shared: T.Store, allowed: bool, world: World)
    requires Launches(cases, launches)
    requires var r := RunFrom(cases, launches, shared, allowed, world);
             |r.results| == |cases| && forall c :: c in r.results ==> CasePassed(c)
    ensures ChainDeclared(cases, shared.Keys)
  {
    hide RunShared, AllSentDeclared, Start, DeclaredAfter;
    if cases != [] {
      var r := RunShared(cases[0], launches[0], shared, allowed, world);
      var whole := RunFrom(cases, launches, shared, allowed, world);
      assert whole.results[0] == r;
      assert r in whole.results;
      var rest := RunFrom(cases[1..], launches[1..], shared + r.run.vars, allowed, world);
      assert whole.results == [r] + rest.results;
      assert forall c :: c in rest.results ==> c in whole.results;
      PassedLeaves(cases[0], launches[0], shared, allowed, world);
      PassingChainIsDeclared(cases[1..], launches[1..], shared + r.run.vars, allowed, world);
    }
  }
}
