/** What running a configured step, a case and a chain of cases comes to, by the single attempts and the stores between them. */
module RunMeaning {
  import opened Optional
  import opened Text
  import opened Steps
  import opened Runner
  import opened RunnerMeaning
  import opened Chain
  import T = Templates

  // ---- a configured step ----

  /** Nothing to send, or a mixture that the engine does not take. */
  predicate Misconfigured(step: StepSpec) {
    if step.concurrentRequests.Some? then
      !(1 <= |step.concurrentRequests.value| <= 1000)
      || step.request.Some? || step.parallelRequests.Some? || step.retry || step.save.Some?
    else
      step.request.None?
      || (step.parallelRequests.Some?
          && var n := step.parallelRequests.value; n < 1 || 1000 < n || (n != 1 && (step.save.Some? || step.retry)))
  }

  predicate Passes(step: StepSpec, vars: T.Store, world: World, reply: Reply) { Execute(step, vars, world, reply).outcome.Passed? }

  /** A group of requests passes when each passes in the common store, a retried step when some attempt does, and any other
      step when its one attempt does. */
  predicate Succeeds(step: StepSpec, vars: T.Store, world: World, script: Script) {
    if step.concurrentRequests.Some? then
      forall i :: 0 <= i < |step.concurrentRequests.value| ==>
        var c := step.concurrentRequests.value[i];
        Passes(StepSpec(c.name, c.auth, c.authToken, c.request, c.expect_, None, false, None, None), vars, world, BranchReply(script, i))
    else if step.parallelRequests.Some? && step.parallelRequests.value != 1 then
      forall i :: 0 <= i < step.parallelRequests.value ==> Passes(step.(parallelRequests := None), vars, world, BranchReply(script, i))
    else if step.retry then
      exists i :: 0 <= i < |script.polls| + 1 && AttemptPasses(step, vars, world, script.polls + [script.last], i)
    else Passes(step, vars, world, script.last)
  }

  /** What a step leaves: a group nothing, a single attempt what it has saved. */
  predicate Leaves(step: StepSpec, vars: T.Store, world: World, script: Script, after: T.Store) {
    if step.concurrentRequests.Some? || (step.parallelRequests.Some? && step.parallelRequests.value != 1) then after == vars
    else !step.retry ==> after == Execute(step, vars, world, script.last).vars
  }

  lemma CopiesPass(step: StepSpec, n: nat, vars: T.Store, world: World, script: Script)
    ensures Branches(Copies(step, n), 0, vars, world, script).outcome.Passed? <==>
              forall i :: 0 <= i < n ==> Passes(step.(parallelRequests := None), vars, world, BranchReply(script, i))
    ensures Branches(Copies(step, n), 0, vars, world, script).vars == vars
    ensures |Branches(Copies(step, n), 0, vars, world, script).attempts| == n
  {
    hide Execute, BranchReply, Branches;
    var r := Branches(Copies(step, n), 0, vars, world, script);
    BranchesExactly(Copies(step, n), 0, vars, world, script);
    forall i | 0 <= i < n ensures r.attempts[i].Passed? <==> Passes(step.(parallelRequests := None), vars, world, BranchReply(script, i)) {
      assert 0 + i == i && Copies(step, n)[i] == step.(parallelRequests := None);
    }
    if forall i :: 0 <= i < n ==> Passes(step.(parallelRequests := None), vars, world, BranchReply(script, i)) {
      forall i | 0 <= i < n ensures r.attempts[i].Passed? {
        assert Passes(step.(parallelRequests := None), vars, world, BranchReply(script, i));
      }
    }
  }

  lemma ChildrenPass(requests: seq<ConcurrentRequest>, vars: T.Store, world: World, script: Script)
    ensures Branches(Children(requests), 0, vars, world, script).outcome.Passed? <==>
              forall i :: 0 <= i < |requests| ==>
                var c := requests[i];
                Passes(StepSpec(c.name, c.auth, c.authToken, c.request, c.expect_, None, false, None, None), vars, world, BranchReply(script, i))
    ensures Branches(Children(requests), 0, vars, world, script).vars == vars
    ensures |Branches(Children(requests), 0, vars, world, script).attempts| == |requests|
  {
    hide Execute, BranchReply, Branches;
    BranchesExactly(Children(requests), 0, vars, world, script);
    var r := Branches(Children(requests), 0, vars, world, script);
    forall i | 0 <= i < |requests|
      ensures var c := requests[i];
              r.attempts[i].Passed? <==>
                Passes(StepSpec(c.name, c.auth, c.authToken, c.request, c.expect_, None, false, None, None), vars, world, BranchReply(script, i))
    {
      assert 0 + i == i && Children(requests)[i] == Child(requests[i]);
    }
  }

  /** A step is refused, with nothing sent and nothing stored, exactly when it is misconfigured; otherwise it passes exactly
      when its attempts do. */
  lemma ConfiguredExactly(step: StepSpec, vars: T.Store, world: World, script: Script)
    ensures var r := RunConfiguredStep(step, vars, world, script);
            (r.attempts == [] <==> Misconfigured(step))
            && if Misconfigured(step) then r.outcome == Failed(InvalidStep) && r.vars == vars
               else (r.outcome.Passed? <==> Succeeds(step, vars, world, script)) && Leaves(step, vars, world, script, r.vars)
  {
    hide Execute, AttemptPasses, BranchReply, Branches, Poll, Children, Copies;
    if !Misconfigured(step) {
      if step.concurrentRequests.Some? {
        ChildrenPass(step.concurrentRequests.value, vars, world, script);
      } else if step.parallelRequests.Some? && step.parallelRequests.value != 1 {
        CopiesPass(step, step.parallelRequests.value, vars, world, script);
      } else if step.retry {
        RetryExactly(step, vars, world, script.polls, script.last, TimedOut);
      }
    }
  }

  // ---- a case ----

  /** The stores between the case variables: each is the one before with that variable's text. */
  predicate Fills(variables: Pairs, world: World, stores: seq<T.Store>) {
    1 <= |stores| <= |variables| + 1
    && forall i :: 0 <= i < |stores| - 1 ==> Fill(variables[i].0, variables[i].1, world, stores[i], stores[i + 1])
  }

  predicate Fill(name: string, template: string, world: World, before: T.Store, after: T.Store) {
    var text := T.Resolve(template, before, world.env);
    text.Resolved? && after == before[Fold(name) := text.text]
  }

  /** The variables are filled in one by one, up to the first that cannot be resolved. */
  lemma {:induction false} FilledInOrder(variables: Pairs, vars: T.Store, world: World) returns (stores: seq<T.Store>)
    ensures Fills(variables, world, stores) && stores[0] == vars
    ensures var a, n := CaseVariables(variables, vars, world), |stores| - 1;
            a.vars == stores[n]
            && if n < |variables| then a.outcome.Failed? && !T.Resolve(variables[n].1, stores[n], world.env).Resolved?
               else a.outcome.Passed?
  {
    hide T.Resolve;
    stores := [vars];
    if variables != [] {
      var text := T.Resolve(variables[0].1, vars, world.env);
      if text.Resolved? {
        var rest := FilledInOrder(variables[1..], vars[Fold(variables[0].0) := text.text], world);
        stores := [vars] + rest;
        forall i | 0 <= i < |stores| - 1 ensures Fill(variables[i].0, variables[i].1, world, stores[i], stores[i + 1]) {
          if i > 0 { assert variables[1..][i - 1] == variables[i] && rest[i - 1] == stores[i] && rest[i] == stores[i + 1]; }
        }
      }
    }
  }

  /** A case starts exactly when it may destroy or does not, and all its variables can be filled in, on top of the shared
      values and, below those, the run's own; it is then the run of its steps in the last of those stores. */
  lemma CaseExactly(test: CaseSpec, launch: Launch, shared: T.Store, allowed: bool, world: World) returns (stores: seq<T.Store>)
    requires |launch.scripts| == |test.steps|
    ensures Fills(test.variables, world, stores)
    ensures stores[0].Keys == BuiltIns() + shared.Keys
            && forall n :: n in stores[0] ==> stores[0][n] == if n in shared then shared[n] else launch.values(n)
    ensures var r, n := RunShared(test, launch, shared, allowed, world), |stores| - 1;
            (r.Started? <==> (test.destructive ==> allowed) && n == |test.variables|)
            && (r.Started? ==> r.run == RunSteps(test.steps, stores[n], world, launch.scripts))
            && (n < |test.variables| ==> !T.Resolve(test.variables[n].1, stores[n], world.env).Resolved?)
  {
    hide RunSteps, T.Resolve, BuiltIns, Fills;
    stores := FilledInOrder(test.variables, InitialStore(launch.values, shared), world);
    assert 1 <= |stores| <= |test.variables| + 1 by { SomeStore(test.variables, world, stores); }
  }

  lemma SomeStore(variables: Pairs, world: World, stores: seq<T.Store>)
    requires Fills(variables, world, stores)
    ensures 1 <= |stores| <= |variables| + 1
  {
  }

  // ---- a chain ----

  /** What the cases after it find: what was shared, and over it what the case has in its store. */
  predicate Shares(before: T.Store, run: T.Store, after: T.Store) {
    after.Keys == before.Keys + run.Keys && forall n :: n in after ==> after[n] == if n in run then run[n] else before[n]
  }

  predicate PassedCase(r: CaseRun) { match r case NotStarted(_) => false case Started(run) => run.outcome.Passed? }

  /** Result `i` is the run of case `i` on what the cases before it share; each but the last has passed, and shares its own
      variables, and the last one ends the list when it has not. */
  predicate Chained(cases: seq<CaseSpec>, launches: seq<Launch>, allowed: bool, world: World, results: seq<CaseRun>, stores: seq<T.Store>)
    requires Launches(cases, launches)
  {
    |results| <= |cases| && |stores| == |results| + 1
    && (forall i :: 0 <= i < |results| ==> RunOf(cases[i], launches[i], stores[i], allowed, world, results[i]))
    && forall i :: 0 <= i < |results| ==> HandsOn(results[i], stores[i], stores[i + 1], i == |results| - 1)
  }

  predicate RunOf(test: CaseSpec, launch: Launch, shared: T.Store, allowed: bool, world: World, r: CaseRun) {
    |launch.scripts| == |test.steps| && r == RunShared(test, launch, shared, allowed, world)
  }

  predicate HandsOn(r: CaseRun, before: T.Store, after: T.Store, last: bool) {
    if PassedCase(r) then Shares(before, r.run.vars, after) else last && after == before
  }

  lemma {:induction false} ChainExactly(cases: seq<CaseSpec>, launches: seq<Launch>, shared: T.Store, allowed: bool, world: World)
    returns (stores: seq<T.Store>)
    requires Launches(cases, launches)
    ensures var r := RunFrom(cases, launches, shared, allowed, world);
            Chained(cases, launches, allowed, world, r.results, stores)
            && stores[0] == shared && r.shared == stores[|r.results|]
            && (|r.results| < |cases| ==> r.results != [] && !PassedCase(r.results[|r.results| - 1]))
  {
    hide RunShared, Chained;
    stores := [shared];
    if cases == [] {
      NothingChained(launches, shared, allowed, world);
    } else {
      var r := RunShared(cases[0], launches[0], shared, allowed, world);
      assert RunOf(cases[0], launches[0], shared, allowed, world, r);
      if CasePassed(r) {
        var rest := ChainExactly(cases[1..], launches[1..], shared + r.run.vars, allowed, world);
        var tail := RunFrom(cases[1..], launches[1..], shared + r.run.vars, allowed, world).results;
        stores := [shared] + rest;
        ChainedLength(cases[1..], launches[1..], allowed, world, tail, rest);
        ChainedNext(cases, launches, shared, allowed, world, r, tail, rest);
      } else {
        stores := [shared, shared];
        ChainStops(cases, launches, shared, allowed, world, r);
      }
    }
  }

  lemma NothingChained(launches: seq<Launch>, shared: T.Store, allowed: bool, world: World)
    requires launches == []
    ensures Chained([], launches, allowed, world, [], [shared])
  {
  }

  lemma ChainedLength(cases: seq<CaseSpec>, launches: seq<Launch>, allowed: bool, world: World, results: seq<CaseRun>, stores: seq<T.Store>)
    requires Launches(cases, launches) && Chained(cases, launches, allowed, world, results, stores)
    ensures |results| <= |cases| == |launches| && |stores| == |results| + 1
  {
  }

  lemma ChainStops(cases: seq<CaseSpec>, launches: seq<Launch>, shared: T.Store, allowed: bool, world: World, r: CaseRun)
    requires cases != [] && Launches(cases, launches) && RunOf(cases[0], launches[0], shared, allowed, world, r) && !CasePassed(r)
    ensures Chained(cases, launches, allowed, world, [r], [shared, shared])
  {
    hide RunOf;
  }

  /** The chain's later part, seen from the whole. */
  lemma ChainedAt(cases: seq<CaseSpec>, launches: seq<Launch>, allowed: bool, world: World, results: seq<CaseRun>, stores: seq<T.Store>, i: nat)
    requires Launches(cases, launches) && Chained(cases, launches, allowed, world, results, stores) && i < |results|
    ensures |stores| == |results| + 1 && |results| <= |cases| == |launches|
    ensures RunOf(cases[i], launches[i], stores[i], allowed, world, results[i])
    ensures HandsOn(results[i], stores[i], stores[i + 1], i == |results| - 1)
  {
    hide RunOf, HandsOn;
  }

  lemma HandedOn(r: CaseRun, shared: T.Store, last: bool)
    requires CasePassed(r)
    ensures HandsOn(r, shared, shared + r.run.vars, last)
  {
  }

  lemma Later(cases: seq<CaseSpec>, launches: seq<Launch>, allowed: bool, world: World, tail: seq<CaseRun>, rest: seq<T.Store>, i: nat)
    requires cases != [] && Launches(cases, launches)
    requires Launches(cases[1..], launches[1..]) && Chained(cases[1..], launches[1..], allowed, world, tail, rest) && i < |tail|
    ensures |rest| == |tail| + 1 && |tail| < |cases| == |launches|
    ensures RunOf(cases[i + 1], launches[i + 1], rest[i], allowed, world, tail[i]) && HandsOn(tail[i], rest[i], rest[i + 1], i == |tail| - 1)
  {
    hide RunOf, HandsOn, Chained;
    ChainedAt(cases[1..], launches[1..], allowed, world, tail, rest, i);
  }

  /** A case that passes in front of a chain. */
  lemma ChainedNext(cases: seq<CaseSpec>, launches: seq<Launch>, shared: T.Store, allowed: bool, world: World,
                    r: CaseRun, tail: seq<CaseRun>, rest: seq<T.Store>)
    requires cases != [] && |launches| == |cases| && Launches(cases, launches)
    requires RunOf(cases[0], launches[0], shared, allowed, world, r) && CasePassed(r)
    requires Launches(cases[1..], launches[1..]) && Chained(cases[1..], launches[1..], allowed, world, tail, rest)
    requires rest[0] == shared + r.run.vars
    ensures Chained(cases, launches, allowed, world, [r] + tail, [shared] + rest)
  {
    hide RunOf, HandsOn, CasePassed, Chained, Launches;
    ChainedLength(cases[1..], launches[1..], allowed, world, tail, rest);
    HandedOn(r, shared, tail == []);
    var results, stores := [r] + tail, [shared] + rest;
    forall i | 0 <= i < |results|
      ensures RunOf(cases[i], launches[i], stores[i], allowed, world, results[i])
      ensures HandsOn(results[i], stores[i], stores[i + 1], i == |results| - 1)
    {
      if i > 0 { Later(cases, launches, allowed, world, tail, rest, i - 1); }
    }
    ChainedBy(cases, launches, allowed, world, results, stores);
  }

  lemma ChainedBy(cases: seq<CaseSpec>, launches: seq<Launch>, allowed: bool, world: World, results: seq<CaseRun>, stores: seq<T.Store>)
    requires Launches(cases, launches) && |results| <= |cases| && |stores| == |results| + 1
    requires forall i :: 0 <= i < |results| ==> RunOf(cases[i], launches[i], stores[i], allowed, world, results[i])
    requires forall i :: 0 <= i < |results| ==> HandsOn(results[i], stores[i], stores[i + 1], i == |results| - 1)
    ensures Chained(cases, launches, allowed, world, results, stores)
  {
    hide RunOf, HandsOn;
  }
}
