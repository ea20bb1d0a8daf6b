/** The interpreter: a mutable variable store, steps in order, retry, parallel and concurrent
    branches on copies of the store, and the HTTP executor with every use of a template and every save.

    Responses, login results, file existence, and the outcome of each comparison are inputs. */
module Runner {
  import opened Optional
  import opened Text
  import opened Steps
  import opened JsonPath
  import T = Templates

  datatype Failure =
    | MissingVariable(name: string) | MissingEnvironment(name: string) | InvalidStep | Malformed | Unauthenticated | FileMissing
    | Transport | Rejected | Unsaved(name: string) | TimedOut

  datatype Outcome = Passed | Failed(failure: Failure) {
    predicate IsFailure() { Failed? }

    function PropagateFailure(): Outcome
      requires Failed?
    {
      this
    }
  }

  predicate Misses(outcome: Outcome) { outcome.Failed? && outcome.failure.MissingVariable? }

  /** The step itself was at fault. */
  predicate IsInvalid(outcome: Outcome) { outcome == Failed(InvalidStep) }

  function Need(resolution: T.Resolution): Outcome {
    match resolution
    case Resolved(_) => Passed
    case MissingVariable(n) => Failed(MissingVariable(n))
    case MissingEnvironment(n) => Failed(MissingEnvironment(n))
  }

  function Demand(condition: bool, failure: Failure): Outcome { if condition then Passed else Failed(failure) }

  datatype Comparison = EqualTo | Containing | Matching | OfType | WithinBounds | Verbatim

  /** Everything a run cannot change: environment, error catalogue, how a text reads as a decimal number, and which
      values match a pattern, fit a 64-bit integer, lie within the rule's bounds and are written as a given constant. */
  datatype World = World(
    env: T.Store, catalogue: Option<Catalogue>, decimal: string -> Option<real>, holds: (Comparison, Json, string) -> bool)

  /** JSON numbers are the scalars that begin with a digit or a minus sign. */
  predicate NumberText(raw: string) { raw != "" && (raw[0] == '-' || IsDigit(raw[0])) }

  predicate IsNumber(value: Json) { value.JScalar? && NumberText(value.raw) }

  /** Two JSON numbers are compared as numbers where both can be read, everything else as text. */
  predicate SameValue(actual: Json, expected: Operand, resolved: string, decimal: string -> Option<real>) {
    if IsNumber(actual) && expected.Constant? && NumberText(expected.raw)
       && decimal(actual.raw).Some? && decimal(resolved).Some? then decimal(actual.raw) == decimal(resolved)
    else TextOf(actual) == resolved
  }

  predicate KnownType(name: string) {
    Fold(name) in ["string", "number", "integer", "boolean", "bool", "array", "object", "null"]
  }

  predicate HasType(value: Json, name: string, world: World)
    requires KnownType(name)
  {
    var type_ := Fold(name);
    if type_ == "string" then value.JString?
    else if type_ == "number" then IsNumber(value)
    else if type_ == "integer" then IsNumber(value) && world.holds(OfType, value, "integer")
    else if type_ == "array" then value.JArray?
    else if type_ == "object" then value.JObject?
    else if type_ == "null" then value.JScalar? && value.raw == "null"
    else value.JScalar? && (value.raw == "true" || value.raw == "false")
  }

  /** A type name outside the list is an exception of its own. */
  function CheckType(value: Json, name: Option<string>, world: World): Outcome {
    if name.None? then Passed
    else if !KnownType(name.value) then Failed(InvalidStep)
    else Demand(HasType(value, name.value, world), Rejected)
  }

  // ---- JSON schema ----

  predicate SchemaType(name: string) {
    Fold(name) in ["object", "array", "string", "integer", "number", "boolean", "null"]
  }

  /** The value's own text is that of the constant; how a string is written is an input. */
  predicate Written(value: Json, constant: string, world: World) {
    if value.JString? then world.holds(Verbatim, value, constant) else value.raw == constant
  }

  /** `SimpleJsonSchema.Validate`. */
  function Validate(value: Json, schema: Schema, world: World): Outcome
    decreases schema, 2, 0
  {
    var typed := if schema.type_.None? then Passed
                 else if !SchemaType(schema.type_.value) then Failed(InvalidStep)
                 else Demand(HasType(value, schema.type_.value, world), Rejected);
    :- typed;
    :- Demand(value.JObject? ==> forall n :: n in schema.required ==> Property(value.properties, n).Some?, Rejected);
    :- if value.JObject? then ValidateMembers(value.properties, schema, 0, world) else Passed;
    :- if value.JArray? && schema.items.Some? then ValidateItems(value.items, schema, world) else Passed;
    :- Demand(value.JArray? && schema.minItems.Some? ==> schema.minItems.value <= |value.items|, Rejected);
    Demand(schema.listed.Some? ==> exists c :: c in schema.listed.value && Written(value, c, world), Rejected)
  }

  /** The members that the schema describes from the `i`-th on, where the object has them. */
  function ValidateMembers(properties: seq<(string, Json)>, schema: Schema, i: nat, world: World): Outcome
    requires i <= |schema.properties|
    decreases schema, 1, |schema.properties| - i
  {
    if i == |schema.properties| then Passed
    else
      var member := Property(properties, schema.properties[i].0);
      :- if member.Some? then Validate(member.value, schema.properties[i].1, world) else Passed;
      ValidateMembers(properties, schema, i + 1, world)
  }

  function ValidateItems(items: seq<Json>, schema: Schema, world: World): Outcome
    requires schema.items.Some?
    decreases schema, 1, |items|
  {
    if items == [] then Passed
    else
      :- Validate(items[0], schema.items.value, world);
      ValidateItems(items[1..], schema, world)
  }

  function CheckSchema(schema: Option<Schema>, body: Json, world: World): Outcome {
    if schema.None? then Passed else Validate(body, schema.value, world)
  }

  predicate Holds(comparison: Comparison, value: Json, operand: Operand, resolved: string, world: World) {
    match comparison
    case EqualTo => SameValue(value, operand, resolved, world.decimal)
    case Containing => ContainsText(TextOf(value), resolved)
    case _ => world.holds(comparison, value, resolved)
  }

  datatype Response = Response(status: int, elapsedMs: nat, body: Option<Json>)

  /** What the outside does during one attempt: whether the method and the address form a request message, and the
      response; `None` is a transport failure. */
  datatype Reply = Reply(formed: bool, loginSucceeds: bool, fileExists: string -> bool, response: Option<Response>)

  /** What the outside does during one step: the polls that fit before the retry deadline, the attempt
      after it, and one reply per parallel or concurrent branch. */
  datatype Script = Script(polls: seq<Reply>, last: Reply, branches: seq<Reply>)

  function BranchReply(script: Script, i: nat): Reply {
    if i < |script.branches| then script.branches[i] else script.last
  }

  datatype Attempt = Attempt(outcome: Outcome, vars: T.Store)

  // ---- one HTTP attempt ----

  function ResolveAll(texts: seq<string>, vars: T.Store, world: World): Outcome {
    if texts == [] then Passed
    else
      :- Need(T.Resolve(texts[0], vars, world.env));
      ResolveAll(texts[1..], vars, world)
  }

  /** What is resolved before the attempt is guarded: path, payload, form, and the description of the expectation. */
  function EagerTemplates(step: StepSpec): seq<string>
    requires step.request.Some?
  {
    var r := step.request.value;
    (if r.path.Some? then [r.path.value] else [])
    + (if r.rawBody.Some? then [r.rawBody.value] else if r.body.Some? then [r.body.value] else [])
    + (if r.form.Some? then SecondsOf(r.form.value) else [])
    + Described(JsonOf(step))
  }

  function Described(entries: seq<(string, Assertion)>): seq<string> {
    if entries == [] then []
    else
      var rule := entries[0].1;
      (if rule.expected.Some? then [OperandText(rule.expected.value)] else [])
      + (if rule.contains.Some? then [rule.contains.value] else [])
      + Described(entries[1..])
  }

  predicate Filled(text: Option<string>) { text.Some? && !IsBlank(text.value) }

  function Authenticate(step: StepSpec, vars: T.Store, world: World, reply: Reply): Outcome {
    if !Filled(step.auth) then Passed
    else if Filled(step.authToken) then Need(T.Resolve(step.authToken.value, vars, world.env))
    else if "authtoken" in vars && !IsBlank(vars["authtoken"]) then Passed
    else Demand(reply.loginSucceeds, Unauthenticated)
  }

  /** `Path.GetFileName`. */
  function BaseName(path: string): (r: string)
    ensures exists k: nat :: k <= |path| && r == path[k..]
  {
    if Free(path, '/') then assert path == path[0..]; path
    else
      var r := BaseName(path[1..]);
      assert forall k: nat :: k <= |path[1..]| ==> path[1..][k..] == path[k + 1..];
      r
  }

  function AttachFile(file: MultipartFile, vars: T.Store, world: World, reply: Reply): Outcome {
    var path := T.Resolve(file.path, vars, world.env);
    :- Need(path);
    :- Demand(reply.fileExists(path.text), FileMissing);
    Need(T.Resolve(if file.fileName.Some? then file.fileName.value else BaseName(path.text), vars, world.env))
  }

  function AttachFiles(files: seq<MultipartFile>, vars: T.Store, world: World, reply: Reply): Outcome {
    if files == [] then Passed
    else
      :- AttachFile(files[0], vars, world, reply);
      AttachFiles(files[1..], vars, world, reply)
  }

  function Content(request: RequestSpec, vars: T.Store, world: World, reply: Reply): Outcome {
    var payload := request.rawBody.Some? || request.body.Some?;
    :- Demand(!(request.rawBody.Some? && request.body.Some?), InvalidStep);
    :- Demand(!(payload && request.form.Some?), InvalidStep);
    :- Demand(!(request.multipart.Some? && (payload || request.form.Some?)), InvalidStep);
    if payload || request.form.Some? || request.multipart.None? then Passed
    else
      :- ResolveAll(SecondsOf(request.multipart.value.fields), vars, world);
      AttachFiles(request.multipart.value.files, vars, world, reply)
  }

  function AddIfAbsent(entries: seq<(string, Assertion)>, path: string, text: string): (r: seq<(string, Assertion)>)
    ensures entries <= r
  {
    if exists e :: e in entries && e.0 == path then entries
    else entries + [(path, Assertion(Some(Plain(text)), None, None, None, None, None, false, None, []))]
  }

  /** `ResolveErrorExpectation`; `None` is its exception. */
  function ResolveErrorExpectation(expect_: ExpectSpec, catalogue: Option<Catalogue>): (r: Option<ExpectSpec>)
    ensures r.Some? ==> expect_.json <= r.value.json
  {
    if expect_.error.None? then Some(expect_)
    else if catalogue.None? || expect_.error.value.code !in catalogue.value then None
    else
      var code, entry := expect_.error.value.code, catalogue.value[expect_.error.value.code];
      var locale := expect_.error.value.locale;
      var message := if locale.Some? && Fold(locale.value) == "vi" then entry.vietnamese else entry.english;
      Some(expect_.(status := if expect_.status.Some? then expect_.status else Some(entry.httpStatus),
                    json := AddIfAbsent(AddIfAbsent(expect_.json, "$.errorCode", code), "$.message", message)))
  }

  function AsPlain(text: Option<string>): Option<Operand> { if text.Some? then Some(Plain(text.value)) else None }

  /** One optional rule: its text is resolved first, then compared. */
  function Compare(comparison: Comparison, value: Json, operand: Option<Operand>, vars: T.Store, world: World, wanted: bool): Outcome {
    if operand.None? then Passed
    else
      var resolved := T.Resolve(OperandText(operand.value), vars, world.env);
      :- Need(resolved);
      Demand(Holds(comparison, value, operand.value, resolved.text, world) == wanted, Rejected)
  }

  /** The lazy `Any` over the options. */
  function CompareAny(options: seq<Operand>, value: Json, vars: T.Store, world: World): Outcome {
    if options == [] then Failed(Rejected)
    else
      var resolved := T.Resolve(OperandText(options[0]), vars, world.env);
      :- Need(resolved);
      if Holds(EqualTo, value, options[0], resolved.text, world) then Passed else CompareAny(options[1..], value, vars, world)
  }

  function AssertValue(value: Json, rule: Assertion, vars: T.Store, world: World): Outcome {
    var expected := rule.expected;
    :- Compare(EqualTo, value, expected, vars, world, true);
    :- Compare(EqualTo, value, rule.notEquals, vars, world, false);
    :- Compare(Containing, value, AsPlain(rule.contains), vars, world, true);
    :- Compare(Matching, value, AsPlain(rule.matches), vars, world, true);
    :- if rule.oneOf != [] then CompareAny(rule.oneOf, value, vars, world) else Passed;
    :- CheckType(value, rule.typeName, world);
    Demand(rule.bounded ==> world.holds(WithinBounds, value, ""), Rejected)
  }

  function AssertValues(values: seq<Json>, rule: Assertion, vars: T.Store, world: World): Outcome {
    if values == [] then Passed
    else
      :- AssertValue(values[0], rule, vars, world);
      AssertValues(values[1..], rule, vars, world)
  }

  function ActualCount(values: seq<Json>): int
    requires values != []
  {
    match values[0]
    case JArray(items, _) => |items|
    case JObject(properties, _) => |properties|
    case _ => |values|
  }

  function AssertEntry(doc: Json, path: string, rule: Assertion, vars: T.Store, world: World): Outcome {
    var values := Selection(doc, path);
    :- Demand(values.Some?, Rejected);
    :- Demand(rule.exists_.Some? ==> rule.exists_.value == (values.value != []), Rejected);
    if values.value == [] then Passed
    else
      :- Demand(rule.count.Some? ==> rule.count.value == ActualCount(values.value), Rejected);
      AssertValues(values.value, rule, vars, world)
  }

  function AssertEntries(doc: Json, entries: seq<(string, Assertion)>, vars: T.Store, world: World): Outcome {
    if entries == [] then Passed
    else
      :- AssertEntry(doc, entries[0].0, entries[0].1, vars, world);
      AssertEntries(doc, entries[1..], vars, world)
  }

  /** Saves in order; what was saved before a failing save stays. */
  function SaveAll(doc: Json, saves: Pairs, vars: T.Store): Attempt {
    if saves == [] then Attempt(Passed, vars)
    else
      var selected := Select(doc, saves[0].1);
      if selected.None? then Attempt(Failed(Unsaved(saves[0].0)), vars)
      else SaveAll(doc, saves[1..], vars[Fold(saves[0].0) := TextOf(selected.value)])
  }

  function AssertAndSave(step: StepSpec, expect_: ExpectSpec, response: Response, vars: T.Store, world: World): Attempt {
    if expect_.json == [] && step.save.None? && expect_.jsonSchema.None? then Attempt(Passed, vars)
    else if response.body.None? then Attempt(Failed(Rejected), vars)
    else
      var validated := CheckSchema(expect_.jsonSchema, response.body.value, world);
      if validated.Failed? then Attempt(validated, vars)
      else
        var asserted := AssertEntries(response.body.value, expect_.json, vars, world);
        if asserted.Failed? then Attempt(asserted, vars) else SaveAll(response.body.value, SaveOf(step), vars)
  }

  function Accepted(expect_: ExpectSpec): seq<int> {
    if expect_.statusOneOf.Some? then expect_.statusOneOf.value else if expect_.status.Some? then [expect_.status.value] else []
  }

  function Judge(step: StepSpec, response: Response, vars: T.Store, world: World): Attempt {
    if step.expect_.None? then Attempt(Failed(InvalidStep), vars)
    else
      var expect_ := ResolveErrorExpectation(step.expect_.value, world.catalogue);
      if expect_.None? || Accepted(expect_.value) == [] then Attempt(Failed(InvalidStep), vars)
      else if response.status !in Accepted(expect_.value)
              || (expect_.value.maxResponseTimeMs.Some? && response.elapsedMs > expect_.value.maxResponseTimeMs.value) then
        Attempt(Failed(Rejected), vars)
      else AssertAndSave(step, expect_.value, response, vars, world)
  }

  /** Everything up to the moment the request is sent. */
  function Prepare(step: StepSpec, vars: T.Store, world: World, reply: Reply): Outcome
    requires step.request.Some?
  {
    var request := step.request.value;
    :- Demand(request.method_.Some? && request.path.Some?, InvalidStep);
    :- ResolveAll(EagerTemplates(step), vars, world);
    :- Demand(reply.formed, Malformed);
    :- Authenticate(step, vars, world, reply);
    :- ResolveAll(SecondsOf(request.headers), vars, world);
    Content(request, vars, world, reply)
  }

  function Execute(step: StepSpec, vars: T.Store, world: World, reply: Reply): Attempt {
    if step.request.None? then Attempt(Failed(InvalidStep), vars)
    else
      var prepared := Prepare(step, vars, world, reply);
      if prepared.Failed? then Attempt(prepared, vars)
      else if reply.response.None? then Attempt(Failed(Transport), vars)
      else Judge(step, reply.response.value, vars, world)
  }

  // ---- a step, its retries and branches ----

  /** `attempts` lists the outcome of every attempt that was made. */
  datatype StepRun = StepRun(outcome: Outcome, vars: T.Store, attempts: seq<Outcome>)

  function Single(attempt: Attempt): StepRun { StepRun(attempt.outcome, attempt.vars, [attempt.outcome]) }

  function Poll(step: StepSpec, vars: T.Store, world: World, polls: seq<Reply>, last: Reply, reason: Failure): StepRun
    decreases |polls|
  {
    if polls == [] then
      var attempt := Execute(step, vars, world, last);
      Single(attempt).(outcome := if attempt.outcome.Failed? then Failed(reason) else Passed)
    else
      var attempt := Execute(step, vars, world, polls[0]);
      if attempt.outcome.Passed? then Single(attempt)
      else
        var rest := Poll(step, attempt.vars, world, polls[1..], last, attempt.outcome.failure);
        rest.(attempts := [attempt.outcome] + rest.attempts)
  }

  /** Branches run on copies: their saves are lost and the store is what it was. */
  function Branches(steps: seq<StepSpec>, first: nat, vars: T.Store, world: World, script: Script): StepRun {
    if steps == [] then StepRun(Passed, vars, [])
    else
      var branch := Execute(steps[0], vars, world, BranchReply(script, first)).outcome;
      var rest := Branches(steps[1..], first + 1, vars, world, script);
      StepRun(if branch.Failed? then branch else rest.outcome, vars, [branch] + rest.attempts)
  }

  function Children(requests: seq<ConcurrentRequest>): (r: seq<StepSpec>)
    ensures |r| == |requests| && forall i :: 0 <= i < |r| ==> r[i] == Child(requests[i])
  {
    seq(|requests|, i requires 0 <= i < |requests| => Child(requests[i]))
  }

  function Copies(step: StepSpec, n: nat): (r: seq<StepSpec>)
    ensures |r| == n && forall i :: 0 <= i < n ==> r[i] == step.(parallelRequests := None)
  {
    seq(n, i => step.(parallelRequests := None))
  }

  function Refused(vars: T.Store): StepRun { StepRun(Failed(InvalidStep), vars, []) }

  function RunConfiguredStep(step: StepSpec, vars: T.Store, world: World, script: Script): StepRun {
    if Concurrent(step) then
      if step.request.Some? || step.parallelRequests.Some? || step.retry || step.save.Some?
         || |step.concurrentRequests.value| > 1000 then Refused(vars)
      else Branches(Children(step.concurrentRequests.value), 0, vars, world, script)
    else if step.concurrentRequests.Some? || step.request.None? then Refused(vars)
    else
      var parallel := if step.parallelRequests.Some? then step.parallelRequests.value else 1;
      if !(1 <= parallel <= 1000) then Refused(vars)
      else if parallel == 1 then
        if step.retry then Poll(step, vars, world, script.polls, script.last, TimedOut)
        else Single(Execute(step, vars, world, script.last))
      else if step.save.Some? || step.retry then Refused(vars)
      else Branches(Copies(step, parallel), 0, vars, world, script)
  }

  function RunSteps(steps: seq<StepSpec>, vars: T.Store, world: World, scripts: seq<Script>): StepRun
    requires |scripts| == |steps|
  {
    if steps == [] then StepRun(Passed, vars, [])
    else
      var first := RunConfiguredStep(steps[0], vars, world, scripts[0]);
      if first.outcome.Failed? then first
      else
        var rest := RunSteps(steps[1..], first.vars, world, scripts[1..]);
        rest.(attempts := first.attempts + rest.attempts)
  }

  /** Case variables are resolved one by one, each in the store that the earlier ones filled. */
  function CaseVariables(variables: Pairs, vars: T.Store, world: World): Attempt {
    if variables == [] then Attempt(Passed, vars)
    else
      var resolved := T.Resolve(variables[0].1, vars, world.env);
      if resolved.Resolved? then CaseVariables(variables[1..], vars[Fold(variables[0].0) := resolved.text], world)
      else Attempt(Need(resolved), vars)
  }

  /** Run values for the built-in names, then the variables shared by earlier cases of a chain. */
  function InitialStore(values: string -> string, shared: T.Store): (r: T.Store)
    ensures r.Keys == BuiltIns() + shared.Keys
  {
    (map n | n in BuiltIns() :: values(n)) + shared
  }

  datatype CaseRun = NotStarted(reason: Outcome) | Started(run: StepRun)

  function RunCase(test: CaseSpec, initial: T.Store, destructionAllowed: bool, world: World, scripts: seq<Script>): CaseRun
    requires |scripts| == |test.steps|
  {
    if test.destructive && !destructionAllowed then NotStarted(Failed(InvalidStep))
    else
      var prepared := CaseVariables(test.variables, initial, world);
      if prepared.outcome.Failed? then NotStarted(prepared.outcome)
      else Started(RunSteps(test.steps, prepared.vars, world, scripts))
  }

  // ---- the same, on a store that is updated in place ----

  /** The variables dictionary of a run or of one branch. */
  class VariableStore {
    var values: T.Store

    constructor (values: T.Store)
      ensures this.values == values
    {
      this.values := values;
    }

    method Put(name: string, text: string)
      modifies this
      ensures values == old(values)[Fold(name) := text]
    {
      values := values[Fold(name) := text];
    }
  }

  method AssertAll(doc: Json, entries: seq<(string, Assertion)>, store: VariableStore, world: World) returns (outcome: Outcome)
    ensures outcome == AssertEntries(doc, entries, store.values, world)
  {
    hide AssertEntry;
    for i := 0 to |entries|
      invariant AssertEntries(doc, entries, store.values, world) == AssertEntries(doc, entries[i..], store.values, world)
    {
      assert entries[i..][1..] == entries[i + 1..];
      outcome := AssertEntry(doc, entries[i].0, entries[i].1, store.values, world);
      if outcome.Failed? { return; }
    }
    outcome := Passed;
  }

  method SaveInto(doc: Json, saves: Pairs, store: VariableStore) returns (outcome: Outcome)
    modifies store
    ensures Attempt(outcome, store.values) == SaveAll(doc, saves, old(store.values))
  {
    hide Select;
    for i := 0 to |saves|
      invariant SaveAll(doc, saves, old(store.values)) == SaveAll(doc, saves[i..], store.values)
    {
      assert saves[i..][1..] == saves[i + 1..];
      var selected := Select(doc, saves[i].1);
      if selected.None? { return Failed(Unsaved(saves[i].0)); }
      store.Put(saves[i].0, TextOf(selected.value));
    }
    outcome := Passed;
  }

  method AssertThenSave(step: StepSpec, expect_: ExpectSpec, response: Response, store: VariableStore, world: World)
    returns (outcome: Outcome)
    modifies store
    ensures Attempt(outcome, store.values) == AssertAndSave(step, expect_, response, old(store.values), world)
  {
    if expect_.json == [] && step.save.None? && expect_.jsonSchema.None? { return Passed; }
    if response.body.None? { return Failed(Rejected); }
    outcome := CheckSchema(expect_.jsonSchema, response.body.value, world);
    if outcome.Failed? { return; }
    outcome := AssertAll(response.body.value, expect_.json, store, world);
    if outcome.Passed? {
      outcome := SaveInto(response.body.value, SaveOf(step), store);
    }
  }

  method ExecuteStep(step: StepSpec, store: VariableStore, world: World, reply: Reply) returns (outcome: Outcome)
    modifies store
    ensures Attempt(outcome, store.values) == Execute(step, old(store.values), world, reply)
  {
    hide Prepare, AssertAndSave, ResolveErrorExpectation;
    if step.request.None? { return Failed(InvalidStep); }
    outcome := Prepare(step, store.values, world, reply);
    if outcome.Failed? { return; }
    if reply.response.None? { return Failed(Transport); }
    if step.expect_.None? { return Failed(InvalidStep); }
    var response, expect_ := reply.response.value, ResolveErrorExpectation(step.expect_.value, world.catalogue);
    if expect_.None? { return Failed(InvalidStep); }
    if Accepted(expect_.value) == [] { return Failed(InvalidStep); }
    if response.status !in Accepted(expect_.value)
       || (expect_.value.maxResponseTimeMs.Some? && response.elapsedMs > expect_.value.maxResponseTimeMs.value) {
      return Failed(Rejected);
    }
    outcome := AssertThenSave(step, expect_.value, response, store, world);
  }

  method RunStepWithRetry(step: StepSpec, store: VariableStore, world: World, script: Script)
    returns (outcome: Outcome, attempts: seq<Outcome>)
    requires step.retry
    modifies store
    ensures StepRun(outcome, store.values, attempts) == Poll(step, old(store.values), world, script.polls, script.last, TimedOut)
  {
    hide Execute;
    var polls, reason := script.polls, TimedOut;
    attempts := [];
    ghost var whole := Poll(step, store.values, world, polls, script.last, TimedOut);
    for i := 0 to |polls|
      invariant var rest := Poll(step, store.values, world, polls[i..], script.last, reason);
                whole == rest.(attempts := attempts + rest.attempts)
    {
      assert polls[i..][1..] == polls[i + 1..];
      ghost var before := attempts;
      outcome := ExecuteStep(step, store, world, polls[i]);
      attempts := attempts + [outcome];
      if outcome.Passed? { return; }
      reason := outcome.failure;
      ghost var rest := Poll(step, store.values, world, polls[i + 1..], script.last, reason);
      assert before + ([outcome] + rest.attempts) == attempts + rest.attempts;
    }
    outcome := ExecuteStep(step, store, world, script.last);
    attempts := attempts + [outcome];
    if outcome.Failed? { outcome := Failed(reason); }
  }

  method RunBranches(steps: seq<StepSpec>, store: VariableStore, world: World, script: Script)
    returns (outcome: Outcome, attempts: seq<Outcome>)
    ensures StepRun(outcome, store.values, attempts) == Branches(steps, 0, store.values, world, script)
  {
    hide Execute;
    outcome, attempts := Passed, [];
    ghost var whole := Branches(steps, 0, store.values, world, script);
    for i := 0 to |steps|
      invariant var rest := Branches(steps[i..], i, store.values, world, script);
                whole == StepRun(if outcome.Failed? then outcome else rest.outcome, store.values, attempts + rest.attempts)
    {
      assert steps[i..][1..] == steps[i + 1..];
      var copy := new VariableStore(store.values);
      var branch := ExecuteStep(steps[i], copy, world, BranchReply(script, i));
      ghost var rest := Branches(steps[i + 1..], i + 1, store.values, world, script);
      assert attempts + ([branch] + rest.attempts) == attempts + [branch] + rest.attempts;
      attempts := attempts + [branch];
      if outcome.Passed? { outcome := branch; }
    }
  }

  method RunConfigured(step: StepSpec, store: VariableStore, world: World, script: Script)
    returns (outcome: Outcome, attempts: seq<Outcome>)
    modifies store
    ensures StepRun(outcome, store.values, attempts) == RunConfiguredStep(step, old(store.values), world, script)
  {
    hide Execute, Poll, Branches;
    attempts := [];
    if Concurrent(step) {
      if step.request.Some? || step.parallelRequests.Some? || step.retry || step.save.Some?
         || |step.concurrentRequests.value| > 1000 {
        return Failed(InvalidStep), [];
      }
      outcome, attempts := RunBranches(Children(step.concurrentRequests.value), store, world, script);
      return;
    }
    if step.concurrentRequests.Some? || step.request.None? { return Failed(InvalidStep), []; }
    var parallel := if step.parallelRequests.Some? then step.parallelRequests.value else 1;
    if parallel < 1 || parallel > 1000 { return Failed(InvalidStep), []; }
    if parallel == 1 {
      if step.retry {
        outcome, attempts := RunStepWithRetry(step, store, world, script);
      } else {
        outcome := ExecuteStep(step, store, world, script.last);
        attempts := [outcome];
      }
      return;
    }
    if step.save.Some? || step.retry { return Failed(InvalidStep), []; }
    outcome, attempts := RunBranches(Copies(step, parallel), store, world, script);
  }

  method Run(test: CaseSpec, initial: T.Store, destructionAllowed: bool, world: World, scripts: seq<Script>)
    returns (r: CaseRun)
    requires |scripts| == |test.steps|
    ensures r == RunCase(test, initial, destructionAllowed, world, scripts)
  {
    hide RunConfiguredStep;
    if test.destructive && !destructionAllowed { return NotStarted(Failed(InvalidStep)); }
    var store := new VariableStore(initial);
    for i := 0 to |test.variables|
      invariant CaseVariables(test.variables, initial, world) == CaseVariables(test.variables[i..], store.values, world)
    {
      assert test.variables[i..][1..] == test.variables[i + 1..];
      var resolved := T.Resolve(test.variables[i].1, store.values, world.env);
      if !resolved.Resolved? { return NotStarted(Need(resolved)); }
      store.Put(test.variables[i].0, resolved.text);
    }
    var outcome, attempts := RunAll(test.steps, store, world, scripts);
    return Started(StepRun(outcome, store.values, attempts));
  }

  method RunAll(steps: seq<StepSpec>, store: VariableStore, world: World, scripts: seq<Script>)
    returns (outcome: Outcome, attempts: seq<Outcome>)
    requires |scripts| == |steps|
    modifies store
    ensures StepRun(outcome, store.values, attempts) == RunSteps(steps, old(store.values), world, scripts)
  {
    hide RunConfiguredStep;
    outcome, attempts := Passed, [];
    ghost var whole := RunSteps(steps, store.values, world, scripts);
    for i := 0 to |steps|
      invariant outcome.Passed?
      invariant var rest := RunSteps(steps[i..], store.values, world, scripts[i..]);
                whole == rest.(attempts := attempts + rest.attempts)
    {
      assert steps[i..][1..] == steps[i + 1..] && scripts[i..][1..] == scripts[i + 1..];
      var made;
      ghost var before := attempts;
      outcome, made := RunConfigured(steps[i], store, world, scripts[i]);
      attempts := attempts + made;
      if outcome.Failed? { return; }
      ghost var rest := RunSteps(steps[i + 1..], store.values, world, scripts[i + 1..]);
      assert before + (made + rest.attempts) == attempts + rest.attempts;
    }
  }
}
