/** The preflight check: a def-before-use analysis over the steps of a case, and the structural
    rules for HTTP steps. */
module Validator {
  import opened Optional
  import opened Text
  import opened Steps
  import opened Templates

  datatype Rule =
    | ConcurrentConflict | ConcurrentEmpty | RequestMissing | TransportCount | BodyWithForm | BodyWithRaw | FormWithRaw
    | ExpectMissing | StatusTwice | CatalogueMissing | CodeUnknown | CodeStatus | CodeStatusOneOf | MultipartMixed
    | MultipartFileBlank | ParallelRange | ParallelSave

  datatype Issue = Broken(step: string, rule: Rule) | Undeclared(step: string, name: string)

  /** Every text of a step in which the check looks for variables. */
  function EnumerateTemplates(step: StepSpec): seq<string> {
    Opt(step.authToken)
    + (if step.request.Some? then RequestTemplates(step.request.value) else [])
    + AssertionTemplates(JsonOf(step))
  }

  function Opt(text: Option<string>): seq<string> { if text.Some? then [text.value] else [] }

  function RequestTemplates(request: RequestSpec): seq<string> {
    Opt(request.path) + Opt(request.body) + Opt(request.rawBody)
    + (if request.form.Some? then SecondsOf(request.form.value) else [])
    + (if request.multipart.Some? then
         SecondsOf(request.multipart.value.fields) + FileTemplates(request.multipart.value.files)
       else [])
    + SecondsOf(request.headers)
  }

  function FileTemplates(files: seq<MultipartFile>): seq<string> {
    if files == [] then [] else [files[0].path] + Opt(files[0].fileName) + FileTemplates(files[1..])
  }

  function AssertionTemplates(entries: seq<(string, Assertion)>): seq<string> {
    if entries == [] then [] else RuleTemplates(entries[0].1) + AssertionTemplates(entries[1..])
  }

  function RuleTemplates(rule: Assertion): seq<string> {
    OptRaw(rule.expected) + OptRaw(rule.notEquals) + Opt(rule.contains) + Opt(rule.matches) + Raws(rule.oneOf)
  }

  function OptRaw(operand: Option<Operand>): seq<string> { if operand.Some? then Raws([operand.value]) else [] }

  function Raws(operands: seq<Operand>): seq<string> {
    if operands == [] then []
    else (if operands[0].Constant? then [operands[0].raw] else []) + Raws(operands[1..])
  }

  /** Names of one text that are neither environment names nor declared. */
  function Unknown(step: string, names: seq<string>, declared: set<string>): seq<Issue> {
    if names == [] then []
    else
      (if !IsEnvironment(names[0]) && Fold(names[0]) !in declared then [Undeclared(step, names[0])] else [])
      + Unknown(step, names[1..], declared)
  }

  function UnknownIn(step: string, texts: seq<string>, declared: set<string>): seq<Issue> {
    if texts == [] then []
    else Unknown(step, Variables(texts[0]), declared) + UnknownIn(step, texts[1..], declared)
  }

  function When(condition: bool, step: string, rule: Rule): seq<Issue> {
    if condition then [Broken(step, rule)] else []
  }

  function ErrorIssues(step: StepSpec, error: ErrorExpectation, catalogue: Option<Catalogue>): seq<Issue>
    requires step.expect_.Some?
  {
    if catalogue.None? then [Broken(step.name, CatalogueMissing)]
    else if error.code !in catalogue.value then [Broken(step.name, CodeUnknown)]
    else
      var e, status := step.expect_.value, catalogue.value[error.code].httpStatus;
      When(e.status.Some? && e.status.value != status, step.name, CodeStatus)
      + When(e.statusOneOf.Some? && status !in e.statusOneOf.value, step.name, CodeStatusOneOf)
  }

  function FileIssues(step: string, files: seq<MultipartFile>): seq<Issue> {
    if files == [] then []
    else When(IsBlank(files[0].field) || IsBlank(files[0].path), step, MultipartFileBlank) + FileIssues(step, files[1..])
  }

  function ExpectIssues(step: StepSpec, catalogue: Option<Catalogue>): seq<Issue> {
    if step.expect_.None? then [] else
      var e := step.expect_.value;
      When(e.status.Some? && e.statusOneOf.Some? && e.statusOneOf.value != [], step.name, StatusTwice)
      + if e.error.Some? then ErrorIssues(step, e.error.value, catalogue) else []
  }

  function UploadIssues(step: StepSpec): seq<Issue>
    requires step.request.Some?
  {
    var r := step.request.value;
    if r.multipart.None? then [] else
      When(r.body.Some? || r.form.Some? || r.rawBody.Some?, step.name, MultipartMixed) + FileIssues(step.name, r.multipart.value.files)
  }

  /** The structural rules of one HTTP step that has a request. */
  function ShapeIssues(step: StepSpec, cleanup: bool, catalogue: Option<Catalogue>): seq<Issue>
    requires step.request.Some?
  {
    var r, name := step.request.value, step.name;
    When(r.method_.None? && r.path.None?, name, TransportCount)
    + When(r.body.Some? && r.form.Some?, name, BodyWithForm)
    + When(r.body.Some? && r.rawBody.Some?, name, BodyWithRaw)
    + When(r.form.Some? && r.rawBody.Some?, name, FormWithRaw)
    + When(!cleanup && step.expect_.None?, name, ExpectMissing)
    + ExpectIssues(step, catalogue)
    + UploadIssues(step)
    + When(step.parallelRequests.Some? && !(1 <= step.parallelRequests.value <= 1000), name, ParallelRange)
    + When(step.parallelRequests.Some? && step.parallelRequests.value > 1 && step.save.Some?, name, ParallelSave)
  }

  /** Issues of a step that is not a group of concurrent requests. */
  function PlainIssues(step: StepSpec, declared: set<string>, cleanup: bool, catalogue: Option<Catalogue>): seq<Issue> {
    When(step.concurrentRequests.Some?, step.name, ConcurrentEmpty)
    + if step.request.None? then [Broken(step.name, RequestMissing)]
      else ShapeIssues(step, cleanup, catalogue) + UnknownIn(step.name, EnumerateTemplates(step), declared)
  }

  function ChildIssues(requests: seq<ConcurrentRequest>, declared: set<string>, cleanup: bool, catalogue: Option<Catalogue>): seq<Issue> {
    if requests == [] then []
    else
      PlainIssues(Child(requests[0]), BuiltIns() + declared, cleanup, catalogue)
      + ChildIssues(requests[1..], declared, cleanup, catalogue)
  }

  function StepIssues(step: StepSpec, declared: set<string>, cleanup: bool, catalogue: Option<Catalogue>): seq<Issue> {
    if Concurrent(step) then
      When(step.request.Some? || step.save.Some? || step.retry || step.parallelRequests.Some?, step.name, ConcurrentConflict)
      + ChildIssues(step.concurrentRequests.value, declared, cleanup, catalogue)
    else PlainIssues(step, declared, cleanup, catalogue)
  }

  /** What the check holds declared once a step has been read. */
  function After(step: StepSpec, declared: set<string>): set<string> {
    if Concurrent(step) || step.request.None? then declared else declared + FirstKeys(SaveOf(step))
  }

  function IssuesFrom(steps: seq<StepSpec>, declared: set<string>, cleanup: bool, catalogue: Option<Catalogue>): seq<Issue> {
    if steps == [] then []
    else
      StepIssues(steps[0], declared, cleanup, catalogue)
      + IssuesFrom(steps[1..], After(steps[0], declared), cleanup, catalogue)
  }

  function Issues(steps: seq<StepSpec>, caseVariables: Pairs, cleanup: bool, catalogue: Option<Catalogue>): seq<Issue> {
    IssuesFrom(steps, BuiltIns() + FirstKeys(caseVariables), cleanup, catalogue)
  }

  /** The list every part of the check appends to. */
  class IssueList {
    var items: seq<Issue>

    constructor ()
      ensures items == []
    {
      items := [];
    }

    method Add(found: seq<Issue>)
      modifies this
      ensures items == old(items) + found
    {
      items := items + found;
    }
  }

  lemma Regroup(a: seq<Issue>, b: seq<Issue>, c: seq<Issue>)
    ensures a + b + c == a + (b + c)
  {
  }

  lemma UnknownNext(step: string, names: seq<string>, declared: set<string>)
    requires names != []
    ensures Unknown(step, names, declared) ==
            (if !IsEnvironment(names[0]) && Fold(names[0]) !in declared then [Undeclared(step, names[0])] else [])
            + Unknown(step, names[1..], declared)
  {
    hide IsEnvironment, Fold;
  }

  lemma NoneUnknown(step: string, declared: set<string>)
    ensures Unknown(step, [], declared) == []
  {
  }

  method ReportUnknown(step: string, text: string, declared: set<string>, issues: IssueList)
    modifies issues
    ensures issues.items == old(issues.items) + Unknown(step, Variables(text), declared)
  {
    hide Variables, IsEnvironment, Unknown;
    var names := Variables(text);
    for i := 0 to |names|
      invariant issues.items + Unknown(step, names[i..], declared) == old(issues.items) + Unknown(step, names, declared)
    {
      assert names[i..][1..] == names[i + 1..];
      UnknownNext(step, names[i..], declared);
      ghost var before, rest := issues.items, Unknown(step, names[i + 1..], declared);
      if !IsEnvironment(names[i]) && Fold(names[i]) !in declared {
        Regroup(before, [Undeclared(step, names[i])], rest);
        issues.Add([Undeclared(step, names[i])]);
      }
    }
    assert names[|names|..] == [];
    NoneUnknown(step, declared);
  }

  method ReportTemplates(step: string, texts: seq<string>, declared: set<string>, issues: IssueList)
    modifies issues
    ensures issues.items == old(issues.items) + UnknownIn(step, texts, declared)
  {
    hide Variables, Unknown;
    for t := 0 to |texts|
      invariant issues.items + UnknownIn(step, texts[t..], declared) == old(issues.items) + UnknownIn(step, texts, declared)
    {
      assert texts[t..][1..] == texts[t + 1..];
      Regroup(issues.items, Unknown(step, Variables(texts[t]), declared), UnknownIn(step, texts[t + 1..], declared));
      ReportUnknown(step, texts[t], declared, issues);
    }
  }

  method ValidatePlain(step: StepSpec, declared: set<string>, cleanup: bool, catalogue: Option<Catalogue>, issues: IssueList)
    modifies issues
    ensures issues.items == old(issues.items) + PlainIssues(step, declared, cleanup, catalogue)
  {
    hide ShapeIssues, EnumerateTemplates, UnknownIn, When;
    ghost var start := issues.items;
    issues.Add(When(step.concurrentRequests.Some?, step.name, ConcurrentEmpty));
    ghost var first := When(step.concurrentRequests.Some?, step.name, ConcurrentEmpty);
    if step.request.None? {
      issues.Add([Broken(step.name, RequestMissing)]);
      Regroup(start, first, [Broken(step.name, RequestMissing)]);
    } else {
      issues.Add(ShapeIssues(step, cleanup, catalogue));
      ReportTemplates(step.name, EnumerateTemplates(step), declared, issues);
      ghost var shape, unknown := ShapeIssues(step, cleanup, catalogue), UnknownIn(step.name, EnumerateTemplates(step), declared);
      Regroup(start + first, shape, unknown);
      Regroup(start, first, shape + unknown);
    }
  }

  method ValidateStep(step: StepSpec, declared: set<string>, cleanup: bool, catalogue: Option<Catalogue>, issues: IssueList)
    modifies issues
    ensures issues.items == old(issues.items) + StepIssues(step, declared, cleanup, catalogue)
  {
    hide PlainIssues, When, BuiltIns;
    if !Concurrent(step) {
      ValidatePlain(step, declared, cleanup, catalogue, issues);
      return;
    }
    var requests := step.concurrentRequests.value;
    var mixed := step.request.Some? || step.save.Some? || step.retry || step.parallelRequests.Some?;
    ghost var start, conflict := issues.items, When(mixed, step.name, ConcurrentConflict);
    issues.Add(When(mixed, step.name, ConcurrentConflict));
    for i := 0 to |requests|
      invariant issues.items + ChildIssues(requests[i..], declared, cleanup, catalogue)
                == start + conflict + ChildIssues(requests, declared, cleanup, catalogue)
    {
      assert requests[i..][1..] == requests[i + 1..];
      Regroup(issues.items, PlainIssues(Child(requests[i]), BuiltIns() + declared, cleanup, catalogue),
        ChildIssues(requests[i + 1..], declared, cleanup, catalogue));
      ValidatePlain(Child(requests[i]), BuiltIns() + declared, cleanup, catalogue, issues);
    }
    Regroup(start, conflict, ChildIssues(requests, declared, cleanup, catalogue));
  }

  method ValidateSteps(steps: seq<StepSpec>, caseVariables: Pairs, cleanup: bool, catalogue: Option<Catalogue>, issues: IssueList)
    modifies issues
    ensures issues.items == old(issues.items) + Issues(steps, caseVariables, cleanup, catalogue)
  {
    hide StepIssues, BuiltIns;
    var variables := BuiltIns() + FirstKeys(caseVariables);
    for i := 0 to |steps|
      invariant issues.items + IssuesFrom(steps[i..], variables, cleanup, catalogue)
                == old(issues.items) + Issues(steps, caseVariables, cleanup, catalogue)
    {
      assert steps[i..][1..] == steps[i + 1..];
      var step := steps[i];
      Regroup(issues.items, StepIssues(step, variables, cleanup, catalogue),
        IssuesFrom(steps[i + 1..], After(step, variables), cleanup, catalogue));
      ValidateStep(step, variables, cleanup, catalogue, issues);
      if !Concurrent(step) && step.request.Some? { variables := variables + FirstKeys(SaveOf(step)); }
    }
  }

  // ---- what a silent check says ----

  /** Every variable a text mentions is declared. */
  predicate Covered(text: string, declared: set<string>) {
    forall n :: n in Names(text) ==> IsEnvironment(n) || Fold(n) in declared
  }

  predicate AllCovered(texts: seq<string>, declared: set<string>) {
    forall t :: t in texts ==> Covered(t, declared)
  }

  predicate NoneUndeclared(issues: seq<Issue>) { forall i :: i in issues ==> !i.Undeclared? }

  lemma {:induction false} UnknownExact(step: string, names: seq<string>, declared: set<string>)
    ensures NoneUndeclared(Unknown(step, names, declared)) <==>
              forall n :: n in names ==> IsEnvironment(n) || Fold(n) in declared
  {
    if names != [] {
      UnknownExact(step, names[1..], declared);
      assert forall n :: n in names <==> n == names[0] || n in names[1..];
      var head := if !IsEnvironment(names[0]) && Fold(names[0]) !in declared then [Undeclared(step, names[0])] else [];
      NoneConcat(head, Unknown(step, names[1..], declared));
      assert head != [] ==> Undeclared(step, names[0]) in head;
    }
  }

  lemma NoneConcat(a: seq<Issue>, b: seq<Issue>)
    ensures NoneUndeclared(a + b) <==> NoneUndeclared(a) && NoneUndeclared(b)
  {
    if NoneUndeclared(a + b) {
      forall i | i in a ensures !i.Undeclared? { assert i in a + b; }
      forall i | i in b ensures !i.Undeclared? { assert i in a + b; }
    }
  }

  lemma CoveredExact(step: string, text: string, declared: set<string>)
    ensures NoneUndeclared(Unknown(step, Variables(text), declared)) <==> Covered(text, declared)
  {
    UnknownExact(step, Variables(text), declared);
    if forall n :: n in Variables(text) ==> IsEnvironment(n) || Fold(n) in declared {
      forall n | n in Names(text) ensures IsEnvironment(n) || Fold(n) in declared {
        var n' := Reported(text, n);
        EnvironmentFold(n, n');
      }
    }
  }

  /** The check reports no undeclared variable for a list of texts exactly when all of them are covered. */
  lemma {:induction false} UnknownInExact(step: string, texts: seq<string>, declared: set<string>)
    ensures NoneUndeclared(UnknownIn(step, texts, declared)) <==> AllCovered(texts, declared)
  {
    if texts != [] {
      CoveredExact(step, texts[0], declared);
      UnknownInExact(step, texts[1..], declared);
      NoneConcat(Unknown(step, Variables(texts[0]), declared), UnknownIn(step, texts[1..], declared));
      assert forall t :: t in texts <==> t == texts[0] || t in texts[1..];
    }
  }

  predicate PlainDeclared(step: StepSpec, declared: set<string>) {
    step.request.Some? ==> AllCovered(EnumerateTemplates(step), declared)
  }

  /** Every text of the step, or of each of its concurrent requests, is covered. */
  predicate StepDeclared(step: StepSpec, declared: set<string>) {
    if Concurrent(step) then
      forall i :: 0 <= i < |step.concurrentRequests.value| ==> PlainDeclared(Child(step.concurrentRequests.value[i]), declared)
    else PlainDeclared(step, declared)
  }

  predicate AllDeclared(steps: seq<StepSpec>, declared: set<string>) {
    steps == [] || (StepDeclared(steps[0], declared) && AllDeclared(steps[1..], After(steps[0], declared)))
  }

  lemma PlainExact(step: StepSpec, declared: set<string>, cleanup: bool, catalogue: Option<Catalogue>)
    ensures NoneUndeclared(PlainIssues(step, declared, cleanup, catalogue)) <==> PlainDeclared(step, declared)
  {
    if step.request.Some? {
      UnknownInExact(step.name, EnumerateTemplates(step), declared);
      var shape, unknown := ShapeIssues(step, cleanup, catalogue), UnknownIn(step.name, EnumerateTemplates(step), declared);
      ShapeUndeclaresNothing(step, cleanup, catalogue);
      NoneConcat(shape, unknown);
      NoneConcat(When(step.concurrentRequests.Some?, step.name, ConcurrentEmpty), shape + unknown);
    }
  }

  lemma WhenDeclares(condition: bool, step: string, rule: Rule)
    ensures NoneUndeclared(When(condition, step, rule))
  {
  }

  lemma ErrorDeclares(step: StepSpec, error: ErrorExpectation, catalogue: Option<Catalogue>)
    requires step.expect_.Some?
    ensures NoneUndeclared(ErrorIssues(step, error, catalogue))
  {
  }

  lemma NoneOfFive(a: seq<Issue>, b: seq<Issue>, c: seq<Issue>, d: seq<Issue>, e: seq<Issue>)
    requires NoneUndeclared(a) && NoneUndeclared(b) && NoneUndeclared(c) && NoneUndeclared(d) && NoneUndeclared(e)
    ensures NoneUndeclared(a + b + c + d + e)
  {
    hide NoneUndeclared;
    NoneConcat(a, b);
    NoneConcat(a + b, c);
    NoneConcat(a + b + c, d);
    NoneConcat(a + b + c + d, e);
  }

  lemma ExpectDeclares(step: StepSpec, catalogue: Option<Catalogue>)
    ensures NoneUndeclared(ExpectIssues(step, catalogue))
  {
    hide NoneUndeclared, When, ErrorIssues;
    NothingDeclares();
    if step.expect_.Some? {
      var e := step.expect_.value;
      var twice := e.status.Some? && e.statusOneOf.Some? && e.statusOneOf.value != [];
      WhenDeclares(twice, step.name, StatusTwice);
      if e.error.Some? { ErrorDeclares(step, e.error.value, catalogue); }
      NoneConcat(When(twice, step.name, StatusTwice), if e.error.Some? then ErrorIssues(step, e.error.value, catalogue) else []);
    }
  }

  lemma UploadDeclares(step: StepSpec)
    requires step.request.Some?
    ensures NoneUndeclared(UploadIssues(step))
  {
    hide NoneUndeclared, When, FileIssues;
    NothingDeclares();
    var r := step.request.value;
    if r.multipart.Some? {
      var mixed := r.body.Some? || r.form.Some? || r.rawBody.Some?;
      WhenDeclares(mixed, step.name, MultipartMixed);
      FilesUndeclareNothing(step.name, r.multipart.value.files);
      NoneConcat(When(mixed, step.name, MultipartMixed), FileIssues(step.name, r.multipart.value.files));
    }
  }

  lemma ShapeUndeclaresNothing(step: StepSpec, cleanup: bool, catalogue: Option<Catalogue>)
    requires step.request.Some?
    ensures NoneUndeclared(ShapeIssues(step, cleanup, catalogue))
  {
    hide NoneUndeclared, When, ErrorIssues, FileIssues, ExpectIssues, UploadIssues;
    var r, name := step.request.value, step.name;
    var range, saved := step.parallelRequests.Some? && !(1 <= step.parallelRequests.value <= 1000),
                        step.parallelRequests.Some? && step.parallelRequests.value > 1 && step.save.Some?;
    WhenDeclares(r.method_.None? && r.path.None?, name, TransportCount);
    WhenDeclares(r.body.Some? && r.form.Some?, name, BodyWithForm);
    WhenDeclares(r.body.Some? && r.rawBody.Some?, name, BodyWithRaw);
    WhenDeclares(r.form.Some? && r.rawBody.Some?, name, FormWithRaw);
    WhenDeclares(!cleanup && step.expect_.None?, name, ExpectMissing);
    WhenDeclares(range, name, ParallelRange);
    WhenDeclares(saved, name, ParallelSave);
    ExpectDeclares(step, catalogue);
    UploadDeclares(step);
    var first := When(r.method_.None? && r.path.None?, name, TransportCount) + When(r.body.Some? && r.form.Some?, name, BodyWithForm)
      + When(r.body.Some? && r.rawBody.Some?, name, BodyWithRaw) + When(r.form.Some? && r.rawBody.Some?, name, FormWithRaw)
      + When(!cleanup && step.expect_.None?, name, ExpectMissing);
    NoneOfFive(When(r.method_.None? && r.path.None?, name, TransportCount), When(r.body.Some? && r.form.Some?, name, BodyWithForm),
      When(r.body.Some? && r.rawBody.Some?, name, BodyWithRaw), When(r.form.Some? && r.rawBody.Some?, name, FormWithRaw),
      When(!cleanup && step.expect_.None?, name, ExpectMissing));
    NoneOfFive(first, ExpectIssues(step, catalogue), UploadIssues(step), When(range, name, ParallelRange), When(saved, name, ParallelSave));
  }

  lemma NothingDeclares()
    ensures NoneUndeclared([])
  {
  }

  lemma {:induction false} FilesUndeclareNothing(step: string, files: seq<MultipartFile>)
    ensures NoneUndeclared(FileIssues(step, files))
  {
    if files != [] { FilesUndeclareNothing(step, files[1..]); }
  }

  lemma {:induction false} ChildExact(requests: seq<ConcurrentRequest>, declared: set<string>, cleanup: bool, catalogue: Option<Catalogue>)
    requires BuiltIns() <= declared
    ensures NoneUndeclared(ChildIssues(requests, declared, cleanup, catalogue)) <==>
              forall i :: 0 <= i < |requests| ==> PlainDeclared(Child(requests[i]), declared)
  {
    hide PlainIssues, PlainDeclared, BuiltIns;
    if requests != [] {
      assert BuiltIns() + declared == declared;
      PlainExact(Child(requests[0]), declared, cleanup, catalogue);
      ChildExact(requests[1..], declared, cleanup, catalogue);
      NoneConcat(PlainIssues(Child(requests[0]), declared, cleanup, catalogue), ChildIssues(requests[1..], declared, cleanup, catalogue));
      assert forall i :: 1 <= i < |requests| ==> requests[i] == requests[1..][i - 1];
    }
  }

  /** Main reading of the check: it reports no undeclared variable exactly when, step by step, every
      variable of every text is built in, a case variable, or saved by an earlier step. */
  lemma {:induction false} IssuesExact(steps: seq<StepSpec>, declared: set<string>, cleanup: bool, catalogue: Option<Catalogue>)
    requires BuiltIns() <= declared
    ensures NoneUndeclared(IssuesFrom(steps, declared, cleanup, catalogue)) <==> AllDeclared(steps, declared)
  {
    if steps != [] {
      var step := steps[0];
      if Concurrent(step) {
        ChildExact(step.concurrentRequests.value, declared, cleanup, catalogue);
        NoneConcat(When(step.request.Some? || step.save.Some? || step.retry || step.parallelRequests.Some?, step.name, ConcurrentConflict),
          ChildIssues(step.concurrentRequests.value, declared, cleanup, catalogue));
      } else {
        PlainExact(step, declared, cleanup, catalogue);
      }
      IssuesExact(steps[1..], After(step, declared), cleanup, catalogue);
      NoneConcat(StepIssues(step, declared, cleanup, catalogue), IssuesFrom(steps[1..], After(step, declared), cleanup, catalogue));
    }
  }
}
