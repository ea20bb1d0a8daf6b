/** The structural rules of the check against the refusals of the runner: when the check has no structural
    complaint, the runner refuses a step exactly for what the check does not look at. A refusal is an exception
    about the test file itself (`InvalidDataException` in the source), not about what a server answers. */
module PreflightShape {
  import opened Optional
  import opened Text
  import opened Steps
  import opened JsonPath
  import opened Validator
  import opened Runner
  import opened RunnerMeaning
  import opened Schemas
  import T = Templates

  predicate NoneBroken(issues: seq<Issue>) { forall i :: i in issues ==> !i.Broken? }

  /** What an attempt demands of its step, apart from method and path. */
  predicate Shaped(step: StepSpec, catalogue: Option<Catalogue>) {
    step.request.Some? && step.expect_.Some?
    && (var r := step.request.value;
        !(r.body.Some? && r.form.Some?) && !(r.body.Some? && r.rawBody.Some?) && !(r.form.Some? && r.rawBody.Some?)
        && (r.multipart.Some? ==> r.body.None? && r.form.None? && r.rawBody.None?))
    && (step.expect_.value.error.Some? ==> catalogue.Some? && step.expect_.value.error.value.code in catalogue.value)
  }

  predicate HasTarget(step: StepSpec) { step.request.Some? && step.request.value.method_.Some? && step.request.value.path.Some? }

  predicate Several(step: StepSpec) { step.parallelRequests.Some? && step.parallelRequests.value > 1 }

  /** What the check leaves to the author: a method and a path, at most 1000 concurrent requests, and no retry of
      parallel requests. */
  predicate Runnable(step: StepSpec) {
    if Concurrent(step) then
      |step.concurrentRequests.value| <= 1000 && forall c :: c in step.concurrentRequests.value ==> HasTarget(Child(c))
    else HasTarget(step) && !(Several(step) && step.retry)
  }

  /** Some status is accepted: a list that is not empty, or, without a list, a status or an error code that has one. */
  predicate HasStatus(step: StepSpec) {
    step.expect_.Some?
    && var e := step.expect_.value;
       if e.statusOneOf.Some? then e.statusOneOf.value != [] else e.status.Some? || e.error.Some?
  }

  /** Every type name that the step asks for is one that the runner knows. */
  predicate TypesKnown(step: StepSpec) {
    (forall e :: e in JsonOf(step) && e.1.typeName.Some? ==> KindNamed(e.1.typeName.value).Some?)
    && (step.expect_.Some? && step.expect_.value.jsonSchema.Some? ==> KnownSchema(step.expect_.value.jsonSchema.value))
  }

  lemma NoneBrokenConcat(a: seq<Issue>, b: seq<Issue>)
    ensures NoneBroken(a + b) <==> NoneBroken(a) && NoneBroken(b)
  {
    if NoneBroken(a + b) {
      forall i | i in a ensures !i.Broken? { assert i in a + b; }
      forall i | i in b ensures !i.Broken? { assert i in a + b; }
    }
  }

  lemma WhenSilent(condition: bool, step: string, rule: Rule)
    ensures NoneBroken(When(condition, step, rule)) <==> !condition
  {
    if condition { assert Broken(step, rule) in When(condition, step, rule); }
  }

  /** The rules about one request that matter to an attempt. */
  lemma ShapeSilent(step: StepSpec, catalogue: Option<Catalogue>)
    requires step.request.Some? && NoneBroken(ShapeIssues(step, false, catalogue))
    ensures Shaped(step, catalogue)
    ensures step.parallelRequests.Some? ==> 1 <= step.parallelRequests.value <= 1000
    ensures Several(step) ==> step.save.None?
  {
    hide NoneBroken, When, ErrorIssues, FileIssues;
    var r, name := step.request.value, step.name;
    var i1 := When(r.method_.None? && r.path.None?, name, TransportCount);
    var i2 := When(r.body.Some? && r.form.Some?, name, BodyWithForm);
    var i3 := When(r.body.Some? && r.rawBody.Some?, name, BodyWithRaw);
    var i4 := When(r.form.Some? && r.rawBody.Some?, name, FormWithRaw);
    var i5 := When(step.expect_.None?, name, ExpectMissing);
    var i6, i7 := ExpectIssues(step, catalogue), UploadIssues(step);
    var i8 := When(step.parallelRequests.Some? && !(1 <= step.parallelRequests.value <= 1000), name, ParallelRange);
    var i9 := When(step.parallelRequests.Some? && step.parallelRequests.value > 1 && step.save.Some?, name, ParallelSave);
    assert ShapeIssues(step, false, catalogue) == i1 + i2 + i3 + i4 + i5 + i6 + i7 + i8 + i9;
    NoneBrokenConcat(i1 + i2 + i3 + i4 + i5 + i6 + i7 + i8, i9);
    NoneBrokenConcat(i1 + i2 + i3 + i4 + i5 + i6 + i7, i8);
    NoneBrokenConcat(i1 + i2 + i3 + i4 + i5 + i6, i7);
    NoneBrokenConcat(i1 + i2 + i3 + i4 + i5, i6);
    NoneBrokenConcat(i1 + i2 + i3 + i4, i5);
    NoneBrokenConcat(i1 + i2 + i3, i4);
    NoneBrokenConcat(i1 + i2, i3);
    NoneBrokenConcat(i1, i2);
    WhenSilent(r.body.Some? && r.form.Some?, name, BodyWithForm);
    WhenSilent(r.body.Some? && r.rawBody.Some?, name, BodyWithRaw);
    WhenSilent(r.form.Some? && r.rawBody.Some?, name, FormWithRaw);
    WhenSilent(step.expect_.None?, name, ExpectMissing);
    WhenSilent(step.parallelRequests.Some? && !(1 <= step.parallelRequests.value <= 1000), name, ParallelRange);
    WhenSilent(step.parallelRequests.Some? && step.parallelRequests.value > 1 && step.save.Some?, name, ParallelSave);
    if r.multipart.Some? {
      NoneBrokenConcat(When(r.body.Some? || r.form.Some? || r.rawBody.Some?, name, MultipartMixed),
        FileIssues(name, r.multipart.value.files));
      WhenSilent(r.body.Some? || r.form.Some? || r.rawBody.Some?, name, MultipartMixed);
    }
    if step.expect_.Some? && step.expect_.value.error.Some? {
      var e := step.expect_.value;
      NoneBrokenConcat(When(e.status.Some? && e.statusOneOf.Some? && e.statusOneOf.value != [], name, StatusTwice),
        ErrorIssues(step, e.error.value, catalogue));
      ErrorSilent(step, e.error.value, catalogue);
    }
  }

  lemma ErrorSilent(step: StepSpec, error: ErrorExpectation, catalogue: Option<Catalogue>)
    requires step.expect_.Some? && NoneBroken(ErrorIssues(step, error, catalogue))
    ensures catalogue.Some? && error.code in catalogue.value
  {
    hide NoneBroken, When;
    OneBroken(step.name, CatalogueMissing);
    OneBroken(step.name, CodeUnknown);
  }

  lemma PlainSilent(step: StepSpec, declared: set<string>, catalogue: Option<Catalogue>)
    requires NoneBroken(PlainIssues(step, declared, false, catalogue))
    ensures step.concurrentRequests.None? && step.request.Some? && Shaped(step, catalogue)
    ensures step.parallelRequests.Some? ==> 1 <= step.parallelRequests.value <= 1000
    ensures Several(step) ==> step.save.None?
  {
    hide NoneBroken, When, ShapeIssues, UnknownIn, EnumerateTemplates;
    var head := When(step.concurrentRequests.Some?, step.name, ConcurrentEmpty);
    WhenSilent(step.concurrentRequests.Some?, step.name, ConcurrentEmpty);
    if step.request.None? {
      NoneBrokenConcat(head, [Broken(step.name, RequestMissing)]);
      OneBroken(step.name, RequestMissing);
    } else {
      var shape, unknown := ShapeIssues(step, false, catalogue), UnknownIn(step.name, EnumerateTemplates(step), declared);
      NoneBrokenConcat(head, shape + unknown);
      NoneBrokenConcat(shape, unknown);
      ShapeSilent(step, catalogue);
    }
  }

  lemma OneBroken(step: string, rule: Rule)
    ensures !NoneBroken([Broken(step, rule)])
  {
    assert Broken(step, rule) in [Broken(step, rule)];
  }

  // ---- the runner's refusals ----

  lemma {:induction false} ResolvingIsValid(texts: seq<string>, vars: T.Store, world: World)
    ensures !IsInvalid(ResolveAll(texts, vars, world))
  {
    hide T.Resolve;
    if texts != [] { ResolvingIsValid(texts[1..], vars, world); }
  }

  lemma {:induction false} AttachingIsValid(files: seq<MultipartFile>, vars: T.Store, world: World, reply: Reply)
    ensures !IsInvalid(AttachFiles(files, vars, world, reply))
  {
    hide T.Resolve, BaseName;
    if files != [] { AttachingIsValid(files[1..], vars, world, reply); }
  }

  lemma {:induction false} AnyIsValid(options: seq<Operand>, value: Json, vars: T.Store, world: World)
    ensures !IsInvalid(CompareAny(options, value, vars, world))
  {
    hide T.Resolve, OperandText;
    if options != [] { AnyIsValid(options[1..], value, vars, world); }
  }

  // Type names are looked at last but one: everything before the unknown one has held.

  predicate TypeUnknown(value: Json, rule: Assertion, vars: T.Store, world: World) {
    rule.typeName.Some? && KindNamed(rule.typeName.value).None? && Compares(value, rule, vars, world)
  }

  lemma CompareIsValid(c: Comparison, value: Json, operand: Option<Operand>, vars: T.Store, world: World, wanted: bool)
    ensures !IsInvalid(Compare(c, value, operand, vars, world, wanted))
  {
    hide T.Resolve, OperandText, Holds;
  }

  lemma CheckingInvalid(value: Json, name: Option<string>, world: World)
    ensures IsInvalid(CheckType(value, name, world)) <==> name.Some? && KindNamed(name.value).None?
  {
    hide KnownType, HasType, KindNamed, OfTypeName;
    if name.Some? { TypeNamesExactly(value, name.value, world); }
  }

  lemma AssertingInvalid(value: Json, rule: Assertion, vars: T.Store, world: World)
    ensures IsInvalid(AssertValue(value, rule, vars, world)) <==> TypeUnknown(value, rule, vars, world)
  {
    hide Compare, CompareAny, CheckType, Meets, OneMeets, KindNamed;
    CheckingInvalid(value, rule.typeName, world);
    AnyIsValid(rule.oneOf, value, vars, world);
    CompareIsValid(EqualTo, value, rule.expected, vars, world, true);
    CompareIsValid(EqualTo, value, rule.notEquals, vars, world, false);
    CompareIsValid(Containing, value, AsPlain(rule.contains), vars, world, true);
    CompareIsValid(Matching, value, AsPlain(rule.matches), vars, world, true);
    CompareExactly(EqualTo, value, rule.expected, vars, world, true);
    CompareExactly(EqualTo, value, rule.notEquals, vars, world, false);
    CompareExactly(Containing, value, AsPlain(rule.contains), vars, world, true);
    CompareExactly(Matching, value, AsPlain(rule.matches), vars, world, true);
    CompareAnyExactly(rule.oneOf, value, vars, world);
  }

  /** A rule with an unknown type is met by its first value or not at all. */
  lemma {:induction false} ValuesInvalid(values: seq<Json>, rule: Assertion, vars: T.Store, world: World)
    ensures IsInvalid(AssertValues(values, rule, vars, world)) <==> values != [] && TypeUnknown(values[0], rule, vars, world)
  {
    hide AssertValue, Compares, KnownType, HasType;
    if values != [] {
      AssertingInvalid(values[0], rule, vars, world);
      AssertValueExactly(values[0], rule, vars, world);
      ValuesInvalid(values[1..], rule, vars, world);
    }
  }

  /** The path, the presence and the count are as the rule says, and then its type name is not known. */
  predicate EntryUnknown(doc: Json, path: string, rule: Assertion, vars: T.Store, world: World) {
    var values := Selection(doc, path);
    values.Some? && values.value != [] && (rule.exists_.Some? ==> rule.exists_.value)
    && (rule.count.Some? ==> CountedAs(values.value, rule.count.value))
    && TypeUnknown(values.value[0], rule, vars, world)
  }

  lemma EntryInvalid(doc: Json, path: string, rule: Assertion, vars: T.Store, world: World)
    ensures IsInvalid(AssertEntry(doc, path, rule, vars, world)) <==> EntryUnknown(doc, path, rule, vars, world)
    ensures AssertEntry(doc, path, rule, vars, world).Passed? <==> EntryHolds(doc, path, rule, vars, world)
  {
    hide AssertValues, Selection, TypeUnknown, Satisfies;
    var values := Selection(doc, path);
    if values.Some? {
      ValuesInvalid(values.value, rule, vars, world);
      AssertValuesExactly(values.value, rule, vars, world);
    }
  }

  /** Entry `k` is the first that does not hold, because of its type name. */
  predicate UnknownAt(doc: Json, entries: seq<(string, Assertion)>, vars: T.Store, world: World, k: nat) {
    k < |entries| && EntryUnknown(doc, entries[k].0, entries[k].1, vars, world)
    && forall i :: 0 <= i < k ==> EntryHolds(doc, entries[i].0, entries[i].1, vars, world)
  }

  predicate SomeUnknown(doc: Json, entries: seq<(string, Assertion)>, vars: T.Store, world: World) {
    exists k :: 0 <= k < |entries| && UnknownAt(doc, entries, vars, world, k)
  }

  lemma UnknownNext(doc: Json, entries: seq<(string, Assertion)>, vars: T.Store, world: World, k: nat)
    requires entries != []
    ensures UnknownAt(doc, entries, vars, world, k + 1) <==>
              EntryHolds(doc, entries[0].0, entries[0].1, vars, world) && UnknownAt(doc, entries[1..], vars, world, k)
  {
    hide EntryUnknown, EntryHolds;
    var rest := entries[1..];
    assert forall i :: 0 <= i < |rest| ==> rest[i] == entries[i + 1];
    if EntryHolds(doc, entries[0].0, entries[0].1, vars, world) && UnknownAt(doc, rest, vars, world, k) {
      forall i | 0 <= i < k + 1 ensures EntryHolds(doc, entries[i].0, entries[i].1, vars, world) {
        if i > 0 { assert entries[i] == rest[i - 1]; }
      }
    }
  }

  lemma {:induction false} EntriesInvalid(doc: Json, entries: seq<(string, Assertion)>, vars: T.Store, world: World)
    ensures IsInvalid(AssertEntries(doc, entries, vars, world)) <==> SomeUnknown(doc, entries, vars, world)
  {
    hide AssertEntry, EntryUnknown, EntryHolds, UnknownAt;
    if entries != [] {
      EntryInvalid(doc, entries[0].0, entries[0].1, vars, world);
      EntriesInvalid(doc, entries[1..], vars, world);
      FirstUnknown(doc, entries, vars, world);
      if SomeUnknown(doc, entries[1..], vars, world) {
        var k: nat :| k < |entries[1..]| && UnknownAt(doc, entries[1..], vars, world, k);
        UnknownNext(doc, entries, vars, world, k);
      }
      if SomeUnknown(doc, entries, vars, world) {
        var k: nat :| k < |entries| && UnknownAt(doc, entries, vars, world, k);
        if k > 0 { UnknownNext(doc, entries, vars, world, k - 1); }
      }
    }
  }

  lemma FirstUnknown(doc: Json, entries: seq<(string, Assertion)>, vars: T.Store, world: World)
    requires entries != []
    ensures UnknownAt(doc, entries, vars, world, 0) <==> EntryUnknown(doc, entries[0].0, entries[0].1, vars, world)
  {
  }

  lemma {:induction false} SavingIsValid(doc: Json, saves: Pairs, vars: T.Store)
    ensures !IsInvalid(SaveAll(doc, saves, vars).outcome)
  {
    hide Select, TextOf, Fold;
    if saves != [] {
      var selected := Select(doc, saves[0].1);
      if selected.Some? { SavingIsValid(doc, saves[1..], vars[Fold(saves[0].0) := TextOf(selected.value)]); }
    }
  }

  lemma PreparingInvalid(step: StepSpec, vars: T.Store, world: World, reply: Reply)
    requires Shaped(step, world.catalogue)
    ensures IsInvalid(Prepare(step, vars, world, reply)) <==> !HasTarget(step)
  {
    hide ResolveAll, T.Resolve, EagerTemplates, AttachFiles, IsBlank;
    ResolvingIsValid(EagerTemplates(step), vars, world);
    ResolvingIsValid(SecondsOf(step.request.value.headers), vars, world);
    if step.request.value.multipart.Some? {
      ResolvingIsValid(SecondsOf(step.request.value.multipart.value.fields), vars, world);
      AttachingIsValid(step.request.value.multipart.value.files, vars, world, reply);
    }
  }

  /** The response is in time, has an accepted status, and its body leads to an unknown type name: in the schema, or,
      when it fits the schema, in the assertions. */
  predicate MeetsUnknownType(step: StepSpec, response: Response, vars: T.Store, world: World) {
    step.expect_.Some? && response.body.Some?
    && var resolved := ResolveErrorExpectation(step.expect_.value, world.catalogue);
       resolved.Some? && Timely(resolved.value, response)
       && var schema := resolved.value.jsonSchema;
          if schema.Some? && !Conforms(response.body.value, schema.value, world) then
            Baffled(response.body.value, schema.value, world)
          else SomeUnknown(response.body.value, resolved.value.json, vars, world)
  }

  lemma StatusAccepted(step: StepSpec, catalogue: Option<Catalogue>)
    requires Shaped(step, catalogue)
    ensures var resolved := ResolveErrorExpectation(step.expect_.value, catalogue);
            resolved.Some? && (Accepted(resolved.value) == [] <==> !HasStatus(step))
  {
    hide AddIfAbsent, Fold;
  }

  lemma JudgingInvalid(step: StepSpec, response: Response, vars: T.Store, world: World)
    requires Shaped(step, world.catalogue)
    ensures IsInvalid(Judge(step, response, vars, world).outcome) <==> !HasStatus(step) || MeetsUnknownType(step, response, vars, world)
  {
    hide AssertEntries, SaveAll, Accepted, ResolveErrorExpectation, SomeUnknown, Shaped, HasStatus, Validate, Conforms, Baffled;
    assert step.expect_.Some? by { ExpectationIsThere(step, world.catalogue); }
    StatusAccepted(step, world.catalogue);
    var resolved := ResolveErrorExpectation(step.expect_.value, world.catalogue);
    NothingAccepted(resolved.value, response);
    if response.body.Some? {
      if resolved.value.jsonSchema.Some? { ValidateExactly(response.body.value, resolved.value.jsonSchema.value, world); }
      EntriesInvalid(response.body.value, resolved.value.json, vars, world);
      SavingIsValid(response.body.value, SaveOf(step), vars);
      NoneUnknown(response.body.value, vars, world);
    }
  }

  lemma ExpectationIsThere(step: StepSpec, catalogue: Option<Catalogue>)
    requires Shaped(step, catalogue)
    ensures step.request.Some? && step.expect_.Some?
  {
  }

  lemma NothingAccepted(expect_: ExpectSpec, response: Response)
    ensures Accepted(expect_) == [] ==> !Timely(expect_, response)
  {
  }

  lemma NoneUnknown(doc: Json, vars: T.Store, world: World)
    ensures !SomeUnknown(doc, [], vars, world)
  {
  }

  /** The request goes out and comes back, and then the runner finds the step itself at fault: it accepts no status, or
      it asks for a type that is none. */
  predicate Trapped(step: StepSpec, vars: T.Store, world: World, reply: Reply) {
    Prepared(step, vars, world, reply) && reply.response.Some?
    && (!HasStatus(step) || MeetsUnknownType(step, reply.response.value, vars, world))
  }

  /** An attempt at a well-shaped step is refused exactly when the step lacks a method or a path, or the attempt gets a
      response and the step accepts no status or leads to an unknown type. */
  lemma AttemptInvalid(step: StepSpec, vars: T.Store, world: World, reply: Reply)
    requires Shaped(step, world.catalogue)
    ensures IsInvalid(Execute(step, vars, world, reply).outcome) <==> !HasTarget(step) || Trapped(step, vars, world, reply)
  {
    hide Prepare, Prepared, Judge, HasTarget, Shaped, HasStatus, MeetsUnknownType;
    ExpectationIsThere(step, world.catalogue);
    PreparingInvalid(step, vars, world, reply);
    PrepareExactly(step, vars, world, reply);
    if reply.response.Some? { JudgingInvalid(step, reply.response.value, vars, world); }
  }

  // ---- steps ----

  /** The step was refused as a whole, or one of its attempts was. */
  predicate Refuses(r: StepRun) { IsInvalid(r.outcome) || SomeInvalid(r.attempts) }

  predicate SomeInvalid(attempts: seq<Outcome>) { exists a :: a in attempts && IsInvalid(a) }

  lemma InvalidAt(attempts: seq<Outcome>)
    ensures SomeInvalid(attempts) <==> exists i :: 0 <= i < |attempts| && IsInvalid(attempts[i])
  {
    hide IsInvalid;
    if a :| a in attempts && IsInvalid(a) {
      var i :| 0 <= i < |attempts| && attempts[i] == a;
    }
    if i :| 0 <= i < |attempts| && IsInvalid(attempts[i]) { assert attempts[i] in attempts; }
  }

  /** The `i`-th attempt is made, because none before it passes. */
  predicate Made(step: StepSpec, vars: T.Store, world: World, replies: seq<Reply>, i: nat)
    requires i < |replies|
  {
    forall j :: 0 <= j < i ==> !AttemptPasses(step, vars, world, replies, j)
  }

  lemma MadeNext(step: StepSpec, vars: T.Store, world: World, first: Reply, rest: seq<Reply>, i: nat)
    requires i < |rest|
    ensures var attempt := Execute(step, vars, world, first);
            Made(step, vars, world, [first] + rest, i + 1) <==> attempt.outcome.Failed? && Made(step, attempt.vars, world, rest, i)
    ensures StoreAt(step, vars, world, [first] + rest, i + 1) == StoreAt(step, Execute(step, vars, world, first).vars, world, rest, i)
  {
    hide Execute, StoreAt;
    var attempt, replies := Execute(step, vars, world, first), [first] + rest;
    StoreShift(step, vars, world, first, rest, i);
    FirstStore(step, vars, world, replies);
    forall j | 0 <= j < |rest|
      ensures AttemptPasses(step, attempt.vars, world, rest, j) <==> AttemptPasses(step, vars, world, replies, j + 1)
    {
      StoreShift(step, vars, world, first, rest, j);
    }
    assert AttemptPasses(step, vars, world, replies, 0) <==> attempt.outcome.Passed?;
    if attempt.outcome.Failed? && Made(step, attempt.vars, world, rest, i) {
      forall j | 0 <= j < i + 1 ensures !AttemptPasses(step, vars, world, replies, j) {
        if j > 0 { assert !AttemptPasses(step, attempt.vars, world, rest, j - 1); }
      }
    }
    if Made(step, vars, world, replies, i + 1) {
      forall j | 0 <= j < i ensures !AttemptPasses(step, attempt.vars, world, rest, j) {
        assert !AttemptPasses(step, vars, world, replies, j + 1);
      }
    }
  }

  lemma FirstStore(step: StepSpec, vars: T.Store, world: World, replies: seq<Reply>)
    ensures StoreAt(step, vars, world, replies, 0) == vars
  {
  }

  /** The attempts of a retried step are those that are made, each in the store that the ones before have left. */
  lemma {:induction false} PollAttempts(step: StepSpec, vars: T.Store, world: World, polls: seq<Reply>, last: Reply, reason: Failure, i: nat)
    requires i < |polls| + 1
    ensures var r, replies := Poll(step, vars, world, polls, last, reason), polls + [last];
            (i < |r.attempts| <==> Made(step, vars, world, replies, i))
            && (i < |r.attempts| ==> r.attempts[i] == Execute(step, StoreAt(step, vars, world, replies, i), world, replies[i]).outcome)
    decreases |polls|
  {
    hide Execute, Made, StoreAt;
    var replies := polls + [last];
    var attempt := Execute(step, vars, world, replies[0]);
    FirstStore(step, vars, world, replies);
    if i == 0 {
      FirstMade(step, vars, world, replies);
    } else {
      var rest := polls[1..] + [last];
      assert replies == [polls[0]] + rest;
      MadeNext(step, vars, world, polls[0], rest, i - 1);
      if attempt.outcome.Failed? {
        PollAttempts(step, attempt.vars, world, polls[1..], last, attempt.outcome.failure, i - 1);
      }
    }
  }

  lemma FirstMade(step: StepSpec, vars: T.Store, world: World, replies: seq<Reply>)
    requires replies != []
    ensures Made(step, vars, world, replies, 0)
  {
  }

  lemma {:induction false} PollOutcome(step: StepSpec, vars: T.Store, world: World, polls: seq<Reply>, last: Reply, reason: Failure)
    requires !reason.InvalidStep?
    ensures var r := Poll(step, vars, world, polls, last, reason); IsInvalid(r.outcome) ==> SomeInvalid(r.attempts)
    decreases |polls|
  {
    hide Execute;
    if polls != [] {
      var attempt := Execute(step, vars, world, polls[0]);
      if attempt.outcome.Failed? {
        var r := Poll(step, vars, world, polls, last, reason);
        var rest := Poll(step, attempt.vars, world, polls[1..], last, attempt.outcome.failure);
        assert r.attempts == [attempt.outcome] + rest.attempts;
        if attempt.outcome.failure.InvalidStep? {
          assert attempt.outcome in r.attempts;
        } else {
          PollOutcome(step, attempt.vars, world, polls[1..], last, attempt.outcome.failure);
          assert forall a :: a in rest.attempts ==> a in r.attempts;
        }
      }
    }
  }

  /** Some attempt of the retried step is made and trapped. */
  predicate RetryTraps(step: StepSpec, vars: T.Store, world: World, replies: seq<Reply>) {
    exists i :: 0 <= i < |replies| && RetryTrapsAt(step, vars, world, replies, i)
  }

  predicate RetryTrapsAt(step: StepSpec, vars: T.Store, world: World, replies: seq<Reply>, i: nat)
    requires i < |replies|
  {
    Made(step, vars, world, replies, i) && Trapped(step, StoreAt(step, vars, world, replies, i), world, replies[i])
  }

  lemma PollInvalid(step: StepSpec, vars: T.Store, world: World, polls: seq<Reply>, last: Reply, reason: Failure)
    requires Shaped(step, world.catalogue) && !reason.InvalidStep?
    ensures Refuses(Poll(step, vars, world, polls, last, reason)) <==>
              !HasTarget(step) || RetryTraps(step, vars, world, polls + [last])
  {
    hide Execute, Poll, Shaped, HasTarget, Trapped, Made, StoreAt, SomeInvalid, IsInvalid;
    var r, replies := Poll(step, vars, world, polls, last, reason), polls + [last];
    PollOutcome(step, vars, world, polls, last, reason);
    RetryExactly(step, vars, world, polls, last, reason);
    InvalidAt(r.attempts);
    forall i | 0 <= i < |replies|
      ensures i < |r.attempts| && IsInvalid(r.attempts[i]) <==>
                Made(step, vars, world, replies, i) && (!HasTarget(step) || Trapped(step, StoreAt(step, vars, world, replies, i), world, replies[i]))
    {
      PollAttempts(step, vars, world, polls, last, reason, i);
      AttemptInvalid(step, StoreAt(step, vars, world, replies, i), world, replies[i]);
    }
    FirstMade(step, vars, world, replies);
    if RetryTraps(step, vars, world, replies) {
      var i :| 0 <= i < |replies| && RetryTrapsAt(step, vars, world, replies, i);
      assert IsInvalid(r.attempts[i]);
    }
    if i :| 0 <= i < |r.attempts| && IsInvalid(r.attempts[i]) {
      assert HasTarget(step) ==> RetryTrapsAt(step, vars, world, replies, i);
    }
  }

  /** Some of the branches is trapped in the common store. */
  predicate BranchesTrap(steps: seq<StepSpec>, vars: T.Store, world: World, script: Script) {
    exists i :: 0 <= i < |steps| && Trapped(steps[i], vars, world, BranchReply(script, i))
  }

  lemma {:induction false} BranchOutcome(steps: seq<StepSpec>, first: nat, vars: T.Store, world: World, script: Script)
    ensures var r := Branches(steps, first, vars, world, script); IsInvalid(r.outcome) ==> SomeInvalid(r.attempts)
  {
    hide Execute, BranchReply;
    if steps != [] {
      var branch := Execute(steps[0], vars, world, BranchReply(script, first)).outcome;
      var r, rest := Branches(steps, first, vars, world, script), Branches(steps[1..], first + 1, vars, world, script);
      BranchOutcome(steps[1..], first + 1, vars, world, script);
      assert r.attempts == [branch] + rest.attempts;
      assert branch in r.attempts && forall a :: a in rest.attempts ==> a in r.attempts;
    }
  }

  predicate SomeWithoutTarget(steps: seq<StepSpec>) { exists i :: 0 <= i < |steps| && !HasTarget(steps[i]) }

  lemma BranchesInvalid(steps: seq<StepSpec>, vars: T.Store, world: World, script: Script)
    requires forall i :: 0 <= i < |steps| ==> Shaped(steps[i], world.catalogue)
    ensures Refuses(Branches(steps, 0, vars, world, script)) <==> SomeWithoutTarget(steps) || BranchesTrap(steps, vars, world, script)
  {
    hide Execute, Branches, Shaped, HasTarget, Trapped, SomeInvalid, IsInvalid, BranchReply;
    var r := Branches(steps, 0, vars, world, script);
    BranchOutcome(steps, 0, vars, world, script);
    BranchesExactly(steps, 0, vars, world, script);
    InvalidAt(r.attempts);
    forall i | 0 <= i < |steps|
      ensures IsInvalid(r.attempts[i]) <==> !HasTarget(steps[i]) || Trapped(steps[i], vars, world, BranchReply(script, i))
    {
      AttemptInvalid(steps[i], vars, world, BranchReply(script, i));
    }
  }

  // ---- the two together ----

  lemma {:induction false} ChildrenShaped(requests: seq<ConcurrentRequest>, declared: set<string>, catalogue: Option<Catalogue>)
    requires NoneBroken(ChildIssues(requests, declared, false, catalogue))
    ensures forall i :: 0 <= i < |requests| ==> Shaped(Child(requests[i]), catalogue)
  {
    hide NoneBroken, PlainIssues, Shaped, BuiltIns, Child;
    if requests != [] {
      NoneBrokenConcat(PlainIssues(Child(requests[0]), BuiltIns() + declared, false, catalogue),
        ChildIssues(requests[1..], declared, false, catalogue));
      PlainSilent(Child(requests[0]), BuiltIns() + declared, catalogue);
      ChildrenShaped(requests[1..], declared, catalogue);
      assert forall i :: 1 <= i < |requests| ==> requests[i] == requests[1..][i - 1];
    }
  }

  /** Some attempt that the run makes is trapped. */
  predicate RunTraps(step: StepSpec, vars: T.Store, world: World, script: Script) {
    if Concurrent(step) then BranchesTrap(Children(step.concurrentRequests.value), vars, world, script)
    else if Several(step) then BranchesTrap(Copies(step, step.parallelRequests.value), vars, world, script)
    else if step.retry then RetryTraps(step, vars, world, script.polls + [script.last])
    else Trapped(step, vars, world, script.last)
  }

  lemma ConcurrentExactly(step: StepSpec, declared: set<string>, vars: T.Store, world: World, script: Script)
    requires Concurrent(step) && NoneBroken(StepIssues(step, declared, false, world.catalogue))
    ensures Refuses(RunConfiguredStep(step, vars, world, script)) <==> !Runnable(step) || RunTraps(step, vars, world, script)
  {
    hide NoneBroken, ChildIssues, Branches, Shaped, HasTarget, BranchesTrap;
    var requests := step.concurrentRequests.value;
    var conflict := step.request.Some? || step.save.Some? || step.retry || step.parallelRequests.Some?;
    NoneBrokenConcat(When(conflict, step.name, ConcurrentConflict), ChildIssues(requests, declared, false, world.catalogue));
    WhenSilent(conflict, step.name, ConcurrentConflict);
    ChildrenShaped(requests, declared, world.catalogue);
    if |requests| <= 1000 {
      BranchesInvalid(Children(requests), vars, world, script);
      ChildrenTargets(requests);
    }
  }

  lemma ChildrenTargets(requests: seq<ConcurrentRequest>)
    ensures SomeWithoutTarget(Children(requests)) <==> exists c :: c in requests && !HasTarget(Child(c))
  {
    hide HasTarget, Child;
    var children := Children(requests);
    if i :| 0 <= i < |children| && !HasTarget(children[i]) { assert requests[i] in requests; }
    if c :| c in requests && !HasTarget(Child(c)) {
      var i :| 0 <= i < |requests| && requests[i] == c;
      assert !HasTarget(children[i]);
    }
  }

  lemma CopiesExactly(step: StepSpec, n: nat, vars: T.Store, world: World, script: Script)
    requires Shaped(step, world.catalogue) && n >= 1
    ensures Refuses(Branches(Copies(step, n), 0, vars, world, script)) <==>
              !HasTarget(step) || BranchesTrap(Copies(step, n), vars, world, script)
  {
    hide Branches, BranchesTrap;
    var copies := Copies(step, n);
    BranchesInvalid(copies, vars, world, script);
    assert HasTarget(copies[0]) == HasTarget(step);
  }

  lemma PlainExactly(step: StepSpec, declared: set<string>, vars: T.Store, world: World, script: Script)
    requires !Concurrent(step) && NoneBroken(StepIssues(step, declared, false, world.catalogue))
    ensures Refuses(RunConfiguredStep(step, vars, world, script)) <==> !Runnable(step) || RunTraps(step, vars, world, script)
  {
    hide NoneBroken, PlainIssues, Branches, Poll, Execute, Shaped, HasTarget, Trapped, BranchesTrap, RetryTraps;
    PlainSilent(step, declared, world.catalogue);
    var n := if step.parallelRequests.Some? then step.parallelRequests.value else 1;
    if n == 1 {
      if step.retry {
        PollInvalid(step, vars, world, script.polls, script.last, TimedOut);
      } else {
        AttemptInvalid(step, vars, world, script.last);
        var outcome := Execute(step, vars, world, script.last).outcome;
        assert outcome in [outcome];
      }
    } else if !step.retry {
      CopiesExactly(step, n, vars, world, script);
    }
  }

  /** Main result: for a step of which the check has no structural complaint, the runner refuses it exactly when it
      lacks a method or a path, has more than 1000 concurrent requests, or retries parallel ones, or when some attempt
      that is made gets a response and accepts no status or leads to an unknown type. */
  lemma RefusedExactly(step: StepSpec, declared: set<string>, vars: T.Store, world: World, script: Script)
    requires NoneBroken(StepIssues(step, declared, false, world.catalogue))
    ensures Refuses(RunConfiguredStep(step, vars, world, script)) <==> !Runnable(step) || RunTraps(step, vars, world, script)
  {
    hide *;
    if Concurrent(step) {
      ConcurrentExactly(step, declared, vars, world, script);
    } else {
      PlainExactly(step, declared, vars, world, script);
    }
  }
}
