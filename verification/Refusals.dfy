/** Which of the steps that pass the check the runner may refuse at all, whatever the variables, the environment and the
    answers: every request can be made to reach the runner's judgement. */
module Refusals {
  import opened Optional
  import opened Text
  import opened Steps
  import opened JsonPath
  import opened Validator
  import opened Runner
  import opened RunnerMeaning
  import opened Schemas
  import opened Preflight
  import opened PreflightShape
  import opened PreflightLimits
  import T = Templates

  /** The requests that a step sends, by what they say. */
  function Requests(step: StepSpec): seq<StepSpec> {
    if Concurrent(step) then Children(step.concurrentRequests.value) else [step]
  }

  predicate AllTypesKnown(step: StepSpec) { forall s :: s in Requests(step) ==> TypesKnown(s) }

  /** No variables, no environment and no replies make the runner refuse the step. */
  ghost predicate NeverRefused(step: StepSpec, catalogue: Option<Catalogue>) {
    forall vars: T.Store, world: World, script: Script ::
      world.catalogue == catalogue ==> !Refuses(RunConfiguredStep(step, vars, world, script))
  }

  // ---- known types are never met as unknown ones ----

  lemma AddedRuleIsTypeless(entries: seq<(string, Assertion)>, path: string, text: string)
    ensures forall e :: e in AddIfAbsent(entries, path, text) ==> e in entries || e.1.typeName.None?
  {
  }

  lemma AddedRulesAreTypeless(expect_: ExpectSpec, catalogue: Option<Catalogue>)
    ensures var resolved := ResolveErrorExpectation(expect_, catalogue);
            resolved.Some? ==> resolved.value.jsonSchema == expect_.jsonSchema
                               && forall e :: e in resolved.value.json ==> e in expect_.json || e.1.typeName.None?
  {
    hide AddIfAbsent, Fold;
    if expect_.error.Some? && catalogue.Some? && expect_.error.value.code in catalogue.value {
      var code := expect_.error.value.code;
      AddedRuleIsTypeless(expect_.json, "$.errorCode", code);
      var first := AddIfAbsent(expect_.json, "$.errorCode", code);
      AddedRuleIsTypeless(first, "$.message", catalogue.value[code].vietnamese);
      AddedRuleIsTypeless(first, "$.message", catalogue.value[code].english);
    }
  }

  lemma KnownIsNotMet(step: StepSpec, response: Response, vars: T.Store, world: World)
    requires TypesKnown(step)
    ensures !MeetsUnknownType(step, response, vars, world)
  {
    hide ResolveErrorExpectation, KindNamed, Compares, Selection, Conforms, Baffled, KnownSchema, Timely, EntryHolds;
    if step.expect_.Some? && response.body.Some? {
      AddedRulesAreTypeless(step.expect_.value, world.catalogue);
      var resolved := ResolveErrorExpectation(step.expect_.value, world.catalogue);
      if resolved.Some? {
        if resolved.value.jsonSchema.Some? { KnownNeverBaffles(response.body.value, resolved.value.jsonSchema.value, world); }
        forall k | 0 <= k < |resolved.value.json|
          ensures !UnknownAt(response.body.value, resolved.value.json, vars, world, k)
        {
          assert resolved.value.json[k] in resolved.value.json;
        }
      }
    }
  }

  lemma NotTrapped(s: StepSpec, vars: T.Store, world: World, reply: Reply)
    requires HasStatus(s) && TypesKnown(s)
    ensures !Trapped(s, vars, world, reply)
  {
    hide HasStatus, TypesKnown, Prepared, MeetsUnknownType;
    if reply.response.Some? { KnownIsNotMet(s, reply.response.value, vars, world); }
  }

  lemma CopyAlike(step: StepSpec)
    ensures var copy := step.(parallelRequests := None);
            (HasStatus(copy) <==> HasStatus(step)) && (TypesKnown(copy) <==> TypesKnown(step))
  {
    hide KnownSchema, KindNamed;
  }

  /** With a status and known types, no attempt is trapped. */
  lemma NoTraps(step: StepSpec, vars: T.Store, world: World, script: Script)
    requires AllTypesKnown(step) && forall s :: s in Requests(step) ==> HasStatus(s)
    ensures !RunTraps(step, vars, world, script)
  {
    hide HasStatus, TypesKnown, Trapped, StoreAt, Made;
    var requests := Requests(step);
    forall i | 0 <= i < |requests| ensures HasStatus(requests[i]) && TypesKnown(requests[i]) { assert requests[i] in requests; }
    CopyAlike(step);
    forall s: StepSpec, vars': T.Store, reply | HasStatus(s) && TypesKnown(s) ensures !Trapped(s, vars', world, reply) {
      NotTrapped(s, vars', world, reply);
    }
  }

  // ---- every request can be prepared ----

  function AllVariables(texts: seq<string>): set<string> {
    if texts == [] then {} else VariablesIn(texts[0]) + AllVariables(texts[1..])
  }

  /** Every variable and every environment value of these texts is a slash. */
  function SlashStore(texts: seq<string>): T.Store { map k | k in AllVariables(texts) :: "/" }

  function SlashWorld(texts: seq<string>, catalogue: Option<Catalogue>): World {
    World(map k | k in AllEnvironment(texts) :: "/", catalogue, _ => None, (_, _, _) => true)
  }

  lemma {:induction false} AmongAll(texts: seq<string>, t: string)
    requires t in texts
    ensures VariablesIn(t) <= AllVariables(texts) && EnvironmentIn(t) <= AllEnvironment(texts)
  {
    hide VariablesIn, EnvironmentIn;
    if t != texts[0] { AmongAll(texts[1..], t); }
  }

  lemma SlashAnswers(texts: seq<string>, t: string, catalogue: Option<Catalogue>)
    requires t in texts
    ensures T.AllAnswer(T.Names(t), "/", SlashStore(texts), SlashWorld(texts, catalogue).env)
  {
    hide T.Names;
    AmongAll(texts, t);
    forall n | n in T.Names(t) ensures T.Lookup(n, SlashStore(texts), SlashWorld(texts, catalogue).env) == T.Resolved("/") {
      if T.IsEnvironment(n) { assert n[4..] in EnvironmentIn(t); } else { assert Fold(n) in VariablesIn(t); }
    }
  }

  lemma SlashThen(text: string)
    requires T.Names(text) == []
    ensures T.Names("/" + text) == []
  {
    hide T.Names, T.Straddles;
    SlashCuts("", text);
    T.NamesSplit("/", text);
  }

  lemma TextThen(t: string, text: string)
    requires T.Names(t) == [] && T.Names(text) == [] && (text == "" || text[0] == '/')
    ensures T.Names(t + text) == []
  {
    hide T.Names;
    if text == "" { assert t + text == t; } else { T.NamesSplit(t, text); }
  }

  /** A text whose variables are all slashes mentions nothing once it is resolved. */
  lemma {:induction false} SlashedSegments(segments: seq<T.Segment>, vars: T.Store, env: T.Store)
    requires T.Canonical(segments) && T.AllAnswer(T.VariableNames(segments), "/", vars, env)
    ensures var r := T.Substitute(segments, vars, env);
            r.Resolved? && T.Names(r.text) == [] && (segments == [] ==> r.text == "")
            && (segments != [] && segments[0].Variable? ==> r.text != "" && r.text[0] == '/')
  {
    hide T.Names, T.Lookup, T.IsName;
    if segments == [] {
      T.NoDollarNoNames("");
    } else {
      var rest := segments[1..];
      assert segments == [segments[0]] + rest;
      T.SubstituteFirst(segments[0], rest, vars, env);
      SlashedSegments(rest, vars, env);
      var tail := T.Substitute(rest, vars, env).text;
      if segments[0].Variable? {
        assert segments[0].name in T.VariableNames(segments);
        SlashThen(tail);
      } else {
        assert rest != [] ==> rest[0] == segments[1];
        TextThen(segments[0].text, tail);
      }
    }
  }

  lemma Slashed(t: string, vars: T.Store, env: T.Store)
    requires T.AllAnswer(T.Names(t), "/", vars, env)
    ensures T.Resolve(t, vars, env).Resolved? && T.Names(T.Resolve(t, vars, env).text) == []
  {
    hide T.Names, T.Resolve, T.Scan, T.Canonical, T.Substitute, T.VariableNames;
    T.ResolveIsSubstitution(t, vars, env);
    T.PrintScan(t);
    SlashedSegments(T.Scan(t), vars, env);
  }

  lemma SlashResolvable(texts: seq<string>, t: string, catalogue: Option<Catalogue>)
    requires t in texts
    ensures var vars, world := SlashStore(texts), SlashWorld(texts, catalogue);
            Resolvable(t, vars, world) && T.Names(T.Resolve(t, vars, world.env).text) == []
  {
    hide T.Names, T.Resolve, SlashStore, SlashWorld;
    SlashAnswers(texts, t, catalogue);
    Slashed(t, SlashStore(texts), SlashWorld(texts, catalogue).env);
  }

  /** A file of which path and name are among the texts can be attached, if it is there. */
  lemma SlashAttachable(texts: seq<string>, f: MultipartFile, catalogue: Option<Catalogue>, reply: Reply)
    requires f.path in texts && (f.fileName.Some? ==> f.fileName.value in texts) && forall p: string :: reply.fileExists(p)
    ensures Attachable(f, SlashStore(texts), SlashWorld(texts, catalogue), reply)
  {
    hide T.Names, T.Resolve, SlashStore, SlashWorld, BaseName;
    var vars, world := SlashStore(texts), SlashWorld(texts, catalogue);
    SlashResolvable(texts, f.path, catalogue);
    if f.fileName.Some? {
      SlashResolvable(texts, f.fileName.value, catalogue);
    } else {
      var text := T.Resolve(f.path, vars, world.env).text;
      if T.Names(BaseName(text)) != [] { BaseNames(text, T.Names(BaseName(text))[0]); }
      T.ResolvePlain(BaseName(text), vars, world.env);
    }
  }

  /** Everything in the request that may hold a template. */
  function TextsOf(s: StepSpec): seq<string> { if s.request.Some? then SentTemplates(s) else [] }

  /** A reply that fails nothing. */
  function Obliging(response: Option<Response>): Reply { Reply(true, true, _ => true, response) }

  lemma InSent(step: StepSpec)
    requires step.request.Some?
    ensures var r, sent := step.request.value, SentTemplates(step);
            (forall t :: t in EagerTemplates(step) || t in SecondsOf(r.headers) ==> t in sent)
            && (Filled(step.auth) && Filled(step.authToken) ==> step.authToken.value in sent)
            && (r.multipart.Some? ==>
                  forall t :: t in SecondsOf(r.multipart.value.fields) || t in FileTemplates(r.multipart.value.files) ==> t in sent)
  {
    hide EagerTemplates, IsBlank;
  }

  /** A request in the right shape, with a method and a path, can be sent: some variables and some environment resolve
      all of it. */
  lemma CanBePrepared(s: StepSpec, catalogue: Option<Catalogue>, response: Option<Response>)
    requires Shaped(s, catalogue) && HasTarget(s)
    ensures var texts := TextsOf(s);
            Prepared(s, SlashStore(texts), SlashWorld(texts, catalogue), Obliging(response))
  {
    hide T.Names, T.Resolve, SlashStore, SlashWorld, EagerTemplates, EagerResolvable, ValuesResolvable, FileTemplates,
      SentTemplates, Attachable, Resolvable, IsBlank;
    var texts, r, reply := TextsOf(s), s.request.value, Obliging(response);
    var vars, world := SlashStore(texts), SlashWorld(texts, catalogue);
    InSent(s);
    forall t | t in texts ensures Resolvable(t, vars, world) { SlashResolvable(texts, t, catalogue); }
    EagerExactly(s, vars, world);
    SecondsResolvable(r.headers, vars, world);
    if r.multipart.Some? {
      SecondsResolvable(r.multipart.value.fields, vars, world);
      forall f | f in r.multipart.value.files ensures Attachable(f, vars, world, reply) {
        FileNames(r.multipart.value.files, f);
        SlashAttachable(texts, f, catalogue, reply);
      }
    }
  }

  // ---- from one request to the step ----

  /** The run in which every attempt gets this reply, and there is no time for polls. */
  function Always(reply: Reply): Script { Script([], reply, []) }

  lemma CopyTrapped(step: StepSpec, vars: T.Store, world: World, reply: Reply)
    ensures Trapped(step.(parallelRequests := None), vars, world, reply) <==> Trapped(step, vars, world, reply)
  {
    hide T.Resolve, Described, ResolveErrorExpectation, Attachable, Resolvable, IsBlank, Conforms, Baffled, SomeUnknown, Timely;
    assert step.request.Some? ==> EagerTemplates(step.(parallelRequests := None)) == EagerTemplates(step);
  }

  lemma TrapExtends(step: StepSpec, s: StepSpec, vars: T.Store, world: World, reply: Reply)
    requires s in Requests(step) && Trapped(s, vars, world, reply)
    ensures RunTraps(step, vars, world, Always(reply))
  {
    hide Trapped, StoreAt;
    if Concurrent(step) {
      var children := Children(step.concurrentRequests.value);
      var i :| 0 <= i < |children| && children[i] == s;
      assert BranchReply(Always(reply), i) == reply;
    } else if Several(step) {
      CopyTrapped(step, vars, world, reply);
      assert Copies(step, step.parallelRequests.value)[0] == step.(parallelRequests := None);
      assert BranchReply(Always(reply), 0) == reply;
    } else if step.retry {
      FirstStore(step, vars, world, [reply]);
      assert [] + [reply] == [reply];
      assert RetryTrapsAt(step, vars, world, [reply], 0);
    }
  }

  lemma RequestsShaped(step: StepSpec, declared: set<string>, catalogue: Option<Catalogue>)
    requires NoneBroken(StepIssues(step, declared, false, catalogue))
    ensures forall s :: s in Requests(step) ==> Shaped(s, catalogue)
  {
    hide NoneBroken, ChildIssues, PlainIssues, When, Shaped;
    if Concurrent(step) {
      var requests := step.concurrentRequests.value;
      var conflict := step.request.Some? || step.save.Some? || step.retry || step.parallelRequests.Some?;
      NoneBrokenConcat(When(conflict, step.name, ConcurrentConflict), ChildIssues(requests, declared, false, catalogue));
      ChildrenShaped(requests, declared, catalogue);
    } else {
      PlainSilent(step, declared, catalogue);
    }
  }

  lemma RequestsHaveTargets(step: StepSpec)
    requires Runnable(step)
    ensures forall s :: s in Requests(step) ==> HasTarget(s)
  {
    hide HasTarget, Child;
    if Concurrent(step) {
      var requests := step.concurrentRequests.value;
      forall s | s in Children(requests) ensures HasTarget(s) {
        var i :| 0 <= i < |requests| && Children(requests)[i] == s;
        assert requests[i] in requests;
      }
    }
  }

  /** A request that can be sent and that traps on some response makes the step one that is refused in some run. */
  lemma RefusedInSomeRun(step: StepSpec, declared: set<string>, catalogue: Option<Catalogue>, s: StepSpec, response: Response)
    requires NoneBroken(StepIssues(step, declared, false, catalogue)) && Runnable(step) && s in Requests(step)
    requires var texts := TextsOf(s);
             !HasStatus(s) || MeetsUnknownType(s, response, SlashStore(texts), SlashWorld(texts, catalogue))
    ensures !NeverRefused(step, catalogue)
  {
    hide NoneBroken, StepIssues, Runnable, Requests, HasStatus, MeetsUnknownType, Shaped, HasTarget, Prepared, SlashStore,
      TextsOf, RunTraps, Refuses, RunConfiguredStep;
    RequestsShaped(step, declared, catalogue);
    RequestsHaveTargets(step);
    CanBePrepared(s, catalogue, Some(response));
    var texts, reply := TextsOf(s), Obliging(Some(response));
    var vars, world := SlashStore(texts), SlashWorld(texts, catalogue);
    assert Trapped(s, vars, world, reply);
    TrapExtends(step, s, vars, world, reply);
    RefusedExactly(step, declared, vars, world, Always(reply));
  }

  // ---- the results ----

  /** Main result: the runner never refuses a step that the check has passed and whose type names are known, whatever the
      run, exactly when the step has a method and a path, at most 1000 concurrent requests, no retry of parallel ones, and
      a status in each of its requests. */
  lemma NeverRefusedExactly(step: StepSpec, declared: set<string>, catalogue: Option<Catalogue>)
    requires NoneBroken(StepIssues(step, declared, false, catalogue)) && AllTypesKnown(step)
    ensures NeverRefused(step, catalogue) <==> Runnable(step) && forall s :: s in Requests(step) ==> HasStatus(s)
  {
    hide NoneBroken, StepIssues, Runnable, Requests, HasStatus, AllTypesKnown, RunTraps, Refuses, RunConfiguredStep;
    if !Runnable(step) {
      var world, script := SlashWorld([], catalogue), Always(Obliging(None));
      RefusedExactly(step, declared, map[], world, script);
    } else if s :| s in Requests(step) && !HasStatus(s) {
      RefusedInSomeRun(step, declared, catalogue, s, Response(200, 0, None));
    } else {
      forall vars: T.Store, world: World, script: Script | world.catalogue == catalogue
        ensures !Refuses(RunConfiguredStep(step, vars, world, script))
      {
        NoTraps(step, vars, world, script);
        RefusedExactly(step, declared, vars, world, script);
      }
    }
  }

  /** The rule asks for nothing but a type that is none, of a body as a whole. */
  predicate TypeOnly(rule: Assertion) {
    rule.typeName.Some? && KindNamed(rule.typeName.value).None? && rule.expected.None? && rule.notEquals.None?
    && rule.contains.None? && rule.matches.None? && rule.oneOf == [] && rule.count.None? && rule.exists_ != Some(false)
  }

  /** A response in time is asked first of all for a type that is none, by its schema or by its first assertion. */
  predicate AsksForUnknownType(s: StepSpec) {
    s.expect_.Some?
    && var e := s.expect_.value;
       (e.maxResponseTimeMs.Some? ==> e.maxResponseTimeMs.value >= 0)
       && if e.jsonSchema.Some? then e.jsonSchema.value.type_.Some? && !SchemaKind(e.jsonSchema.value.type_.value)
          else e.json != [] && e.json[0].0 == "$" && TypeOnly(e.json[0].1)
  }

  /** Such a step passes the check, which reads no type names, and is refused in some run. */
  lemma UnknownTypesAreRefused(step: StepSpec, declared: set<string>, catalogue: Option<Catalogue>, s: StepSpec)
    requires NoneBroken(StepIssues(step, declared, false, catalogue)) && s in Requests(step) && AsksForUnknownType(s)
    ensures !NeverRefused(step, catalogue)
  {
    hide NoneBroken, StepIssues, Runnable, Requests, HasStatus, AsksForUnknownType, RunTraps, Refuses, RunConfiguredStep, Shaped,
      SlashStore, SentTemplates;
    if !Runnable(step) {
      RefusedExactly(step, declared, map[], SlashWorld([], catalogue), Always(Obliging(None)));
    } else if !HasStatus(s) {
      RefusedInSomeRun(step, declared, catalogue, s, Response(200, 0, None));
    } else {
      RequestsShaped(step, declared, catalogue);
      var texts := TextsOf(s);
      var response := UnknownTypeIsMet(s, SlashStore(texts), SlashWorld(texts, catalogue));
      RefusedInSomeRun(step, declared, catalogue, s, response);
    }
  }

  lemma UnknownTypeIsMet(s: StepSpec, vars: T.Store, world: World) returns (response: Response)
    requires Shaped(s, world.catalogue) && HasStatus(s) && AsksForUnknownType(s)
    ensures MeetsUnknownType(s, response, vars, world)
  {
    hide HasStatus, ResolveErrorExpectation, Accepted, KindNamed, SchemaKind, Conforms, Baffled, UnknownAt;
    StatusAccepted(s, world.catalogue);
    AddedRulesAreTypeless(s.expect_.value, world.catalogue);
    var resolved := ResolveErrorExpectation(s.expect_.value, world.catalogue).value;
    SameLimit(s.expect_.value, world.catalogue);
    var body := JString("");
    response := Response(Accepted(resolved)[0], 0, Some(body));
    if resolved.jsonSchema.Some? {
      WrongFromTheStart(body, resolved.jsonSchema.value, world);
    } else {
      assert resolved.json[0] == s.expect_.value.json[0];
      FirstIsUnknown(body, resolved.json, vars, world);
    }
  }

  lemma SameLimit(expect_: ExpectSpec, catalogue: Option<Catalogue>)
    ensures var resolved := ResolveErrorExpectation(expect_, catalogue);
            resolved.Some? ==> resolved.value.maxResponseTimeMs == expect_.maxResponseTimeMs
  {
    hide AddIfAbsent, Fold;
  }

  lemma WrongFromTheStart(value: Json, schema: Schema, world: World)
    requires schema.type_.Some? && !SchemaKind(schema.type_.value)
    ensures Baffled(value, schema, world) && !Conforms(value, schema, world)
  {
    hide SchemaKind;
  }

  lemma FirstIsUnknown(body: Json, entries: seq<(string, Assertion)>, vars: T.Store, world: World)
    requires entries != [] && entries[0].0 == "$" && TypeOnly(entries[0].1)
    ensures SomeUnknown(body, entries, vars, world)
  {
    hide KindNamed;
    assert Selection(body, "$") == Some([body]);
    assert UnknownAt(body, entries, vars, world, 0);
  }

  /** The check has no complaint about a step without a status, be it left out or an empty list; some run refuses it. */
  lemma MissingStatusIsNotChecked(path: string, statuses: Option<seq<int>>, catalogue: Option<Catalogue>)
    requires T.Names(path) == [] && (statuses.Some? ==> statuses.value == [])
    ensures var step := Get(path, None, ExpectSpec(None, statuses, None, [], None, None));
            StepIssues(step, {}, false, catalogue) == [] && !NeverRefused(step, catalogue)
  {
    hide T.Names, UnknownIn, NeverRefused;
    var step := Get(path, None, ExpectSpec(None, statuses, None, [], None, None));
    assert EnumerateTemplates(step) == [path];
    PlainTextsAreKnown("s", [path], {});
    assert StepIssues(step, {}, false, catalogue) == [];
    assert step in Requests(step) && !HasStatus(step);
    NeverRefusedExactly(step, {}, catalogue);
  }
}
