/** What the check reports, rule by rule: which issues, how often and in which order, said by the step's own fields and
    the catalogue. */
module CheckRules {
  import opened Optional
  import opened Text
  import opened Steps
  import opened Validator
  import T = Templates

  // ---- the texts that are read ----

  predicate ReadOfRequest(r: RequestSpec, text: string) {
    r.path == Some(text) || r.body == Some(text) || r.rawBody == Some(text)
    || (r.form.Some? && exists p :: p in r.form.value && p.1 == text)
    || (exists p :: p in r.headers && p.1 == text)
    || (r.multipart.Some?
        && ((exists p :: p in r.multipart.value.fields && p.1 == text)
            || exists f :: f in r.multipart.value.files && (f.path == text || f.fileName == Some(text))))
  }

  /** A constant of the rule as it stands in the file, or one of its two patterns. */
  predicate ReadOfRule(rule: Assertion, text: string) {
    rule.expected == Some(Constant(text)) || rule.notEquals == Some(Constant(text)) || Constant(text) in rule.oneOf
    || rule.contains == Some(text) || rule.matches == Some(text)
  }

  predicate Read(step: StepSpec, text: string) {
    step.authToken == Some(text) || (step.request.Some? && ReadOfRequest(step.request.value, text))
    || (step.expect_.Some? && exists e :: e in step.expect_.value.json && ReadOfRule(e.1, text))
  }

  lemma InSeconds(pairs: Pairs, text: string)
    ensures text in SecondsOf(pairs) <==> exists p :: p in pairs && p.1 == text
  {
    if p :| p in pairs && p.1 == text {
      var i :| 0 <= i < |pairs| && pairs[i] == p;
      assert SecondsOf(pairs)[i] == text;
    }
    if text in SecondsOf(pairs) {
      var i :| 0 <= i < |pairs| && SecondsOf(pairs)[i] == text;
      assert pairs[i] in pairs;
    }
  }

  lemma {:induction false} InFiles(files: seq<MultipartFile>, text: string)
    ensures text in FileTemplates(files) <==> exists f :: f in files && (f.path == text || f.fileName == Some(text))
  {
    if files != [] {
      InFiles(files[1..], text);
      assert FileTemplates(files) == [files[0].path] + Opt(files[0].fileName) + FileTemplates(files[1..]);
      assert forall f :: f in files <==> f == files[0] || f in files[1..];
    }
  }

  lemma {:induction false} InRaws(operands: seq<Operand>, text: string)
    ensures text in Raws(operands) <==> Constant(text) in operands
  {
    if operands != [] {
      InRaws(operands[1..], text);
      assert forall o :: o in operands <==> o == operands[0] || o in operands[1..];
    }
  }

  lemma InRule(rule: Assertion, text: string)
    ensures text in RuleTemplates(rule) <==> ReadOfRule(rule, text)
  {
    hide Raws;
    InRaws(rule.oneOf, text);
    if rule.expected.Some? { InRaws([rule.expected.value], text); }
    if rule.notEquals.Some? { InRaws([rule.notEquals.value], text); }
  }

  lemma {:induction false} InAssertions(entries: seq<(string, Assertion)>, text: string)
    ensures text in AssertionTemplates(entries) <==> exists e :: e in entries && ReadOfRule(e.1, text)
  {
    hide RuleTemplates, ReadOfRule;
    if entries != [] {
      InAssertions(entries[1..], text);
      InRule(entries[0].1, text);
      assert AssertionTemplates(entries) == RuleTemplates(entries[0].1) + AssertionTemplates(entries[1..]);
      assert forall e :: e in entries <==> e == entries[0] || e in entries[1..];
    }
  }

  lemma InRequest(r: RequestSpec, text: string)
    ensures text in RequestTemplates(r) <==> ReadOfRequest(r, text)
  {
    hide SecondsOf, FileTemplates;
    InSeconds(r.headers, text);
    if r.form.Some? { InSeconds(r.form.value, text); }
    if r.multipart.Some? {
      InSeconds(r.multipart.value.fields, text);
      InFiles(r.multipart.value.files, text);
    }
  }

  /** Exactly these texts of a step are read. */
  lemma ReadExactly(step: StepSpec, text: string)
    ensures text in EnumerateTemplates(step) <==> Read(step, text)
  {
    hide RequestTemplates, AssertionTemplates, ReadOfRequest, ReadOfRule;
    InAssertions(JsonOf(step), text);
    if step.request.Some? { InRequest(step.request.value, text); }
  }

  // ---- one step ----

  predicate BlankFile(f: MultipartFile) { IsBlank(f.field) || IsBlank(f.path) }

  function BlankFiles(files: seq<MultipartFile>): nat {
    if files == [] then 0 else (if BlankFile(files[0]) then 1 else 0) + BlankFiles(files[1..])
  }

  predicate ExpectsError(step: StepSpec) { step.expect_.Some? && step.expect_.value.error.Some? }

  predicate KnownCode(step: StepSpec, catalogue: Option<Catalogue>) {
    ExpectsError(step) && catalogue.Some? && step.expect_.value.error.value.code in catalogue.value
  }

  /** The step accepts a list with something in it. */
  predicate SeveralStatuses(step: StepSpec) { step.expect_.Some? && step.expect_.value.statusOneOf.Some? && |step.expect_.value.statusOneOf.value| > 0 }

  /** What must be wrong with the expectation. */
  predicate ExpectBreaks(step: StepSpec, catalogue: Option<Catalogue>, rule: Rule) {
    match rule
    case StatusTwice => SeveralStatuses(step) && step.expect_.value.status.Some?
    case CatalogueMissing => ExpectsError(step) && catalogue.None?
    case CodeUnknown => ExpectsError(step) && catalogue.Some? && step.expect_.value.error.value.code !in catalogue.value
    case CodeStatus =>
      KnownCode(step, catalogue) && step.expect_.value.status.Some?
      && step.expect_.value.status.value != catalogue.value[step.expect_.value.error.value.code].httpStatus
    case CodeStatusOneOf =>
      KnownCode(step, catalogue) && step.expect_.value.statusOneOf.Some?
      && catalogue.value[step.expect_.value.error.value.code].httpStatus !in step.expect_.value.statusOneOf.value
    case _ => false
  }

  /** What must be wrong with the request, or with how it is repeated. */
  predicate RequestBreaks(step: StepSpec, cleanup: bool, rule: Rule)
    requires step.request.Some?
  {
    var r := step.request.value;
    match rule
    case TransportCount => r.method_.None? && r.path.None?
    case BodyWithForm => r.body.Some? && r.form.Some?
    case BodyWithRaw => r.body.Some? && r.rawBody.Some?
    case FormWithRaw => r.form.Some? && r.rawBody.Some?
    case ExpectMissing => step.expect_.None? && !cleanup
    case MultipartMixed => r.multipart.Some? && (r.body.Some? || r.form.Some? || r.rawBody.Some?)
    case MultipartFileBlank => r.multipart.Some? && exists f :: f in r.multipart.value.files && BlankFile(f)
    case ParallelRange => step.parallelRequests.Some? && (step.parallelRequests.value < 1 || step.parallelRequests.value > 1000)
    case ParallelSave => step.parallelRequests.Some? && step.parallelRequests.value >= 2 && step.save.Some?
    case _ => false
  }

  predicate Breaks(step: StepSpec, cleanup: bool, catalogue: Option<Catalogue>, rule: Rule) {
    (rule.ConcurrentEmpty? && step.concurrentRequests.Some?)
    || (rule.RequestMissing? && step.request.None?)
    || (step.request.Some? && (RequestBreaks(step, cleanup, rule) || ExpectBreaks(step, catalogue, rule)))
  }

  /** Every broken rule is reported once, and a file without field or path once for each such file. */
  function Times(step: StepSpec, cleanup: bool, catalogue: Option<Catalogue>, rule: Rule): nat {
    if !Breaks(step, cleanup, catalogue, rule) then 0
    else if rule.MultipartFileBlank? then BlankFiles(step.request.value.multipart.value.files)
    else 1
  }

  function Count(issues: seq<Issue>, issue: Issue): nat { multiset(issues)[issue] }

  lemma CountConcat(a: seq<Issue>, b: seq<Issue>, issue: Issue)
    ensures Count(a + b, issue) == Count(a, issue) + Count(b, issue)
  {
  }

  lemma CountNone(issue: Issue)
    ensures Count([], issue) == 0
  {
  }

  lemma WhenCount(condition: bool, step: string, rule: Rule, n: string, other: Rule)
    ensures Count(When(condition, step, rule), Broken(n, other)) == if condition && n == step && other == rule then 1 else 0
  {
  }

  lemma {:induction false} FileCount(step: string, files: seq<MultipartFile>, n: string, rule: Rule)
    ensures Count(FileIssues(step, files), Broken(n, rule)) ==
            if n == step && rule == MultipartFileBlank then BlankFiles(files) else 0
    ensures BlankFiles(files) > 0 <==> exists f :: f in files && BlankFile(f)
  {
    hide IsBlank;
    if files != [] {
      FileCount(step, files[1..], n, rule);
      WhenCount(BlankFile(files[0]), step, MultipartFileBlank, n, rule);
      assert FileIssues(step, files) == When(BlankFile(files[0]), step, MultipartFileBlank) + FileIssues(step, files[1..]);
      assert forall f :: f in files <==> f == files[0] || f in files[1..];
    }
  }

  lemma {:induction false} UnknownCount(step: string, names: seq<string>, declared: set<string>, n: string, rule: Rule)
    ensures Count(Unknown(step, names, declared), Broken(n, rule)) == 0
  {
    hide T.IsEnvironment, Fold;
    if names != [] { UnknownCount(step, names[1..], declared, n, rule); }
  }

  lemma {:induction false} UnknownInCount(step: string, texts: seq<string>, declared: set<string>, n: string, rule: Rule)
    ensures Count(UnknownIn(step, texts, declared), Broken(n, rule)) == 0
  {
    hide T.Variables, Unknown;
    if texts != [] {
      UnknownCount(step, T.Variables(texts[0]), declared, n, rule);
      UnknownInCount(step, texts[1..], declared, n, rule);
    }
  }

  lemma ErrorCount(step: StepSpec, catalogue: Option<Catalogue>, rule: Rule)
    requires step.request.Some? && ExpectsError(step)
    ensures Count(ErrorIssues(step, step.expect_.value.error.value, catalogue), Broken(step.name, rule)) ==
            if !rule.StatusTwice? && ExpectBreaks(step, catalogue, rule) then 1 else 0
  {
    hide When, Count, SeveralStatuses;
    var e, issue := step.expect_.value, Broken(step.name, rule);
    var code := e.error.value.code;
    WhenCount(true, step.name, CatalogueMissing, step.name, rule);
    WhenCount(true, step.name, CodeUnknown, step.name, rule);
    assert When(true, step.name, CatalogueMissing) == [Broken(step.name, CatalogueMissing)] by { WhenTrue(step.name, CatalogueMissing); }
    assert When(true, step.name, CodeUnknown) == [Broken(step.name, CodeUnknown)] by { WhenTrue(step.name, CodeUnknown); }
    if catalogue.Some? && code in catalogue.value {
      var status := catalogue.value[code].httpStatus;
      var one, many := e.status.Some? && e.status.value != status, e.statusOneOf.Some? && status !in e.statusOneOf.value;
      WhenCount(one, step.name, CodeStatus, step.name, rule);
      WhenCount(many, step.name, CodeStatusOneOf, step.name, rule);
      CountConcat(When(one, step.name, CodeStatus), When(many, step.name, CodeStatusOneOf), issue);
    }
  }

  lemma WhenTrue(step: string, rule: Rule)
    ensures When(true, step, rule) == [Broken(step, rule)]
  {
  }

  lemma ExpectCount(step: StepSpec, catalogue: Option<Catalogue>, rule: Rule)
    requires step.request.Some?
    ensures Count(ExpectIssues(step, catalogue), Broken(step.name, rule)) ==
            if ExpectBreaks(step, catalogue, rule) then 1 else 0
  {
    hide When, Count, ErrorIssues;
    var issue := Broken(step.name, rule);
    CountNone(issue);
    if step.expect_.Some? {
      var e := step.expect_.value;
      var twice := e.status.Some? && e.statusOneOf.Some? && e.statusOneOf.value != [];
      WhenCount(twice, step.name, StatusTwice, step.name, rule);
      if e.error.Some? { ErrorCount(step, catalogue, rule); }
      CountConcat(When(twice, step.name, StatusTwice), if e.error.Some? then ErrorIssues(step, e.error.value, catalogue) else [], issue);
    }
  }

  lemma NotInExpect(step: StepSpec, catalogue: Option<Catalogue>)
    ensures forall rule: Rule :: ExpectBreaks(step, catalogue, rule) ==>
              rule.StatusTwice? || rule.CatalogueMissing? || rule.CodeUnknown? || rule.CodeStatus? || rule.CodeStatusOneOf?
  {
  }

  lemma UploadCount(step: StepSpec, cleanup: bool, catalogue: Option<Catalogue>, rule: Rule)
    requires step.request.Some?
    ensures Count(UploadIssues(step), Broken(step.name, rule)) ==
            if rule.MultipartMixed? || rule.MultipartFileBlank? then Times(step, cleanup, catalogue, rule) else 0
  {
    hide FileIssues, BlankFiles, IsBlank, When, Count, ExpectBreaks;
    var r, issue := step.request.value, Broken(step.name, rule);
    CountNone(issue);
    NotInExpect(step, catalogue);
    if r.multipart.Some? {
      var mixed := r.body.Some? || r.form.Some? || r.rawBody.Some?;
      WhenCount(mixed, step.name, MultipartMixed, step.name, rule);
      FileCount(step.name, r.multipart.value.files, step.name, rule);
      CountConcat(When(mixed, step.name, MultipartMixed), FileIssues(step.name, r.multipart.value.files), issue);
    }
  }

  lemma FiveCount(name: string, c1: bool, c2: bool, c3: bool, c4: bool, c5: bool, rule: Rule)
    ensures Count(When(c1, name, TransportCount) + When(c2, name, BodyWithForm) + When(c3, name, BodyWithRaw)
                  + When(c4, name, FormWithRaw) + When(c5, name, ExpectMissing), Broken(name, rule)) ==
            if (rule.TransportCount? && c1) || (rule.BodyWithForm? && c2) || (rule.BodyWithRaw? && c3)
               || (rule.FormWithRaw? && c4) || (rule.ExpectMissing? && c5) then 1 else 0
  {
    hide When, Count;
    var issue := Broken(name, rule);
    var i1, i2, i3 := When(c1, name, TransportCount), When(c2, name, BodyWithForm), When(c3, name, BodyWithRaw);
    var i4, i5 := When(c4, name, FormWithRaw), When(c5, name, ExpectMissing);
    WhenCount(c1, name, TransportCount, name, rule);
    WhenCount(c2, name, BodyWithForm, name, rule);
    WhenCount(c3, name, BodyWithRaw, name, rule);
    WhenCount(c4, name, FormWithRaw, name, rule);
    WhenCount(c5, name, ExpectMissing, name, rule);
    CountConcat(i1, i2, issue);
    CountConcat(i1 + i2, i3, issue);
    CountConcat(i1 + i2 + i3, i4, issue);
    CountConcat(i1 + i2 + i3 + i4, i5, issue);
  }

  lemma ShapeSum(first: seq<Issue>, i6: seq<Issue>, i7: seq<Issue>, name: string, c8: bool, c9: bool, rule: Rule)
    ensures Count(first + i6 + i7 + When(c8, name, ParallelRange) + When(c9, name, ParallelSave), Broken(name, rule)) ==
            Count(first, Broken(name, rule)) + Count(i6, Broken(name, rule)) + Count(i7, Broken(name, rule))
            + (if (rule.ParallelRange? && c8) || (rule.ParallelSave? && c9) then 1 else 0)
  {
    hide When, Count;
    var issue, i8, i9 := Broken(name, rule), When(c8, name, ParallelRange), When(c9, name, ParallelSave);
    WhenCount(c8, name, ParallelRange, name, rule);
    WhenCount(c9, name, ParallelSave, name, rule);
    CountConcat(first, i6, issue);
    CountConcat(first + i6, i7, issue);
    CountConcat(first + i6 + i7, i8, issue);
    CountConcat(first + i6 + i7 + i8, i9, issue);
  }

  function FirstFive(step: StepSpec, cleanup: bool): seq<Issue>
    requires step.request.Some?
  {
    var r, name := step.request.value, step.name;
    When(r.method_.None? && r.path.None?, name, TransportCount) + When(r.body.Some? && r.form.Some?, name, BodyWithForm)
    + When(r.body.Some? && r.rawBody.Some?, name, BodyWithRaw) + When(r.form.Some? && r.rawBody.Some?, name, FormWithRaw)
    + When(!cleanup && step.expect_.None?, name, ExpectMissing)
  }

  predicate OutOfRange(step: StepSpec) { step.parallelRequests.Some? && !(1 <= step.parallelRequests.value <= 1000) }

  predicate ParallelAndSaved(step: StepSpec) {
    step.parallelRequests.Some? && step.parallelRequests.value > 1 && step.save.Some?
  }

  lemma ShapeParts(step: StepSpec, cleanup: bool, catalogue: Option<Catalogue>)
    requires step.request.Some?
    ensures ShapeIssues(step, cleanup, catalogue) ==
            FirstFive(step, cleanup) + ExpectIssues(step, catalogue) + UploadIssues(step)
            + When(OutOfRange(step), step.name, ParallelRange) + When(ParallelAndSaved(step), step.name, ParallelSave)
  {
    hide When, ExpectIssues, UploadIssues;
  }

  lemma FirstFiveCount(step: StepSpec, cleanup: bool, rule: Rule)
    requires step.request.Some?
    ensures Count(FirstFive(step, cleanup), Broken(step.name, rule)) ==
            if (rule.TransportCount? || rule.BodyWithForm? || rule.BodyWithRaw? || rule.FormWithRaw? || rule.ExpectMissing?)
               && RequestBreaks(step, cleanup, rule) then 1 else 0
  {
    hide When, Count;
    var r := step.request.value;
    FiveCount(step.name, r.method_.None? && r.path.None?, r.body.Some? && r.form.Some?, r.body.Some? && r.rawBody.Some?,
      r.form.Some? && r.rawBody.Some?, !cleanup && step.expect_.None?, rule);
  }

  lemma LastTwo(step: StepSpec, cleanup: bool)
    requires step.request.Some?
    ensures RequestBreaks(step, cleanup, ParallelRange) <==> OutOfRange(step)
    ensures RequestBreaks(step, cleanup, ParallelSave) <==> ParallelAndSaved(step)
  {
  }

  lemma RequestRules(step: StepSpec, cleanup: bool, rule: Rule)
    requires step.request.Some? && RequestBreaks(step, cleanup, rule)
    ensures rule.TransportCount? || rule.BodyWithForm? || rule.BodyWithRaw? || rule.FormWithRaw? || rule.ExpectMissing?
            || rule.MultipartMixed? || rule.MultipartFileBlank? || rule.ParallelRange? || rule.ParallelSave?
  {
  }

  lemma ShapeCount(step: StepSpec, cleanup: bool, catalogue: Option<Catalogue>, rule: Rule)
    requires step.request.Some?
    ensures Count(ShapeIssues(step, cleanup, catalogue), Broken(step.name, rule)) ==
            if rule.ConcurrentEmpty? || rule.RequestMissing? then 0 else Times(step, cleanup, catalogue, rule)
  {
    hide ShapeIssues, ExpectIssues, UploadIssues, FirstFive, When, BlankFiles, Count, RequestBreaks, ExpectBreaks, OutOfRange,
      ParallelAndSaved;
    ExpectCount(step, catalogue, rule);
    UploadCount(step, cleanup, catalogue, rule);
    NotInExpect(step, catalogue);
    FirstFiveCount(step, cleanup, rule);
    LastTwo(step, cleanup);
    if RequestBreaks(step, cleanup, rule) { RequestRules(step, cleanup, rule); }
    ShapeParts(step, cleanup, catalogue);
    ShapeSum(FirstFive(step, cleanup), ExpectIssues(step, catalogue), UploadIssues(step), step.name,
      OutOfRange(step), ParallelAndSaved(step), rule);
  }

  /** A step that is not a group breaks each rule as often as it is reported. */
  lemma PlainCount(step: StepSpec, declared: set<string>, cleanup: bool, catalogue: Option<Catalogue>, rule: Rule)
    ensures Count(PlainIssues(step, declared, cleanup, catalogue), Broken(step.name, rule)) == Times(step, cleanup, catalogue, rule)
  {
    hide ShapeIssues, UnknownIn, RequestBreaks, ExpectBreaks, EnumerateTemplates, BlankFiles, Count, When;
    var issue, head := Broken(step.name, rule), When(step.concurrentRequests.Some?, step.name, ConcurrentEmpty);
    WhenCount(step.concurrentRequests.Some?, step.name, ConcurrentEmpty, step.name, rule);
    if step.request.Some? {
      var shape, unknown := ShapeIssues(step, cleanup, catalogue), UnknownIn(step.name, EnumerateTemplates(step), declared);
      ShapeCount(step, cleanup, catalogue, rule);
      UnknownInCount(step.name, EnumerateTemplates(step), declared, step.name, rule);
      CountConcat(head, shape + unknown, issue);
      CountConcat(shape, unknown, issue);
      SecondaryRules(step, cleanup, catalogue);
    } else {
      WhenTrue(step.name, RequestMissing);
      WhenCount(true, step.name, RequestMissing, step.name, rule);
      CountConcat(head, [Broken(step.name, RequestMissing)], issue);
    }
  }

  lemma SecondaryRules(step: StepSpec, cleanup: bool, catalogue: Option<Catalogue>)
    requires step.request.Some?
    ensures forall rule: Rule :: rule.ConcurrentEmpty? || rule.RequestMissing? ==>
              !RequestBreaks(step, cleanup, rule) && !ExpectBreaks(step, catalogue, rule)
  {
  }

  // ---- the order of the reports ----

  /** Rules are looked at in this order, variables after all of them. */
  function Place(issue: Issue): nat {
    match issue
    case Undeclared(_, _) => 17
    case Broken(_, rule) =>
      match rule
      case ConcurrentConflict => 0
      case ConcurrentEmpty => 1
      case RequestMissing => 2
      case TransportCount => 3
      case BodyWithForm => 4
      case BodyWithRaw => 5
      case FormWithRaw => 6
      case ExpectMissing => 7
      case StatusTwice => 8
      case CatalogueMissing => 9
      case CodeUnknown => 10
      case CodeStatus => 11
      case CodeStatusOneOf => 12
      case MultipartMixed => 13
      case MultipartFileBlank => 14
      case ParallelRange => 15
      case ParallelSave => 16
  }

  predicate InOrder(issues: seq<Issue>) { forall i, j :: 0 <= i < j < |issues| ==> Place(issues[i]) <= Place(issues[j]) }

  predicate Within(issues: seq<Issue>, first: nat, last: nat) {
    InOrder(issues) && forall i :: i in issues ==> first <= Place(i) <= last
  }

  lemma WithinConcat(a: seq<Issue>, b: seq<Issue>, first: nat, k: nat, l: nat, last: nat)
    requires Within(a, first, k) && Within(b, l, last) && first <= k <= l <= last
    ensures Within(a + b, first, last)
  {
    hide Place;
    forall i, j | 0 <= i < j < |a + b| ensures Place((a + b)[i]) <= Place((a + b)[j]) {
      assert i < |a| ==> (a + b)[i] in a;
      assert j >= |a| ==> (a + b)[j] in b;
    }
  }

  lemma Alone(condition: bool, step: string, rule: Rule)
    ensures var place := Place(Broken(step, rule)); Within(When(condition, step, rule), place, place)
  {
    hide Place;
  }

  lemma NoneWithin(place: nat)
    ensures Within([], place, place)
  {
  }

  lemma {:induction false} FilesInOrder(step: string, files: seq<MultipartFile>)
    ensures Within(FileIssues(step, files), 14, 14)
  {
    hide When, Within, BlankFile, IsBlank;
    if files == [] {
      NoneWithin(14);
    } else {
      FilesInOrder(step, files[1..]);
      Alone(BlankFile(files[0]), step, MultipartFileBlank);
      assert BlankFile(files[0]) <==> IsBlank(files[0].field) || IsBlank(files[0].path) by { BlankFileIs(files[0]); }
      WithinConcat(When(BlankFile(files[0]), step, MultipartFileBlank), FileIssues(step, files[1..]), 14, 14, 14, 14);
    }
  }

  lemma BlankFileIs(f: MultipartFile)
    ensures BlankFile(f) <==> IsBlank(f.field) || IsBlank(f.path)
  {
    hide IsBlank;
  }

  lemma Widen(issues: seq<Issue>, k: nat, l: nat, first: nat, last: nat)
    requires Within(issues, k, l) && first <= k && l <= last
    ensures Within(issues, first, last)
  {
    hide Place, InOrder;
  }

  lemma FirstInOrder(step: StepSpec, cleanup: bool)
    requires step.request.Some?
    ensures Within(FirstFive(step, cleanup), 3, 7)
  {
    hide When, Within;
    var r, name := step.request.value, step.name;
    var a, b := When(r.method_.None? && r.path.None?, name, TransportCount), When(r.body.Some? && r.form.Some?, name, BodyWithForm);
    var c := When(r.body.Some? && r.rawBody.Some?, name, BodyWithRaw);
    var d, e := When(r.form.Some? && r.rawBody.Some?, name, FormWithRaw), When(!cleanup && step.expect_.None?, name, ExpectMissing);
    Alone(r.method_.None? && r.path.None?, name, TransportCount);
    Alone(r.body.Some? && r.form.Some?, name, BodyWithForm);
    Alone(r.body.Some? && r.rawBody.Some?, name, BodyWithRaw);
    Alone(r.form.Some? && r.rawBody.Some?, name, FormWithRaw);
    Alone(!cleanup && step.expect_.None?, name, ExpectMissing);
    WithinConcat(a, b, 3, 3, 4, 4);
    WithinConcat(a + b, c, 3, 4, 5, 5);
    WithinConcat(a + b + c, d, 3, 5, 6, 6);
    WithinConcat(a + b + c + d, e, 3, 6, 7, 7);
  }

  lemma ErrorInOrder(step: StepSpec, catalogue: Option<Catalogue>)
    requires ExpectsError(step)
    ensures Within(ErrorIssues(step, step.expect_.value.error.value, catalogue), 9, 12)
  {
    hide When, Within;
    var e := step.expect_.value;
    var code := e.error.value.code;
    WhenTrue(step.name, CatalogueMissing);
    WhenTrue(step.name, CodeUnknown);
    Alone(true, step.name, CatalogueMissing);
    Alone(true, step.name, CodeUnknown);
    Widen(When(true, step.name, CatalogueMissing), 9, 9, 9, 12);
    Widen(When(true, step.name, CodeUnknown), 10, 10, 9, 12);
    if catalogue.Some? && code in catalogue.value {
      var status := catalogue.value[code].httpStatus;
      var one, many := e.status.Some? && e.status.value != status, e.statusOneOf.Some? && status !in e.statusOneOf.value;
      Alone(one, step.name, CodeStatus);
      Alone(many, step.name, CodeStatusOneOf);
      WithinConcat(When(one, step.name, CodeStatus), When(many, step.name, CodeStatusOneOf), 11, 11, 12, 12);
      Widen(When(one, step.name, CodeStatus) + When(many, step.name, CodeStatusOneOf), 11, 12, 9, 12);
    }
  }

  lemma ExpectInOrder(step: StepSpec, catalogue: Option<Catalogue>)
    ensures Within(ExpectIssues(step, catalogue), 8, 12)
  {
    hide When, Within, ErrorIssues;
    NoneWithin(8);
    Widen([], 8, 8, 8, 12);
    NoneWithin(9);
    Widen([], 9, 9, 9, 12);
    if step.expect_.Some? {
      var e := step.expect_.value;
      var twice := e.status.Some? && e.statusOneOf.Some? && e.statusOneOf.value != [];
      Alone(twice, step.name, StatusTwice);
      if e.error.Some? { ErrorInOrder(step, catalogue); }
      WithinConcat(When(twice, step.name, StatusTwice), if e.error.Some? then ErrorIssues(step, e.error.value, catalogue) else [], 8, 8, 9, 12);
    }
  }

  lemma UploadInOrder(step: StepSpec)
    requires step.request.Some?
    ensures Within(UploadIssues(step), 13, 14)
  {
    hide When, Within, FileIssues;
    var r := step.request.value;
    NoneWithin(13);
    Widen([], 13, 13, 13, 14);
    if r.multipart.Some? {
      var mixed := r.body.Some? || r.form.Some? || r.rawBody.Some?;
      Alone(mixed, step.name, MultipartMixed);
      FilesInOrder(step.name, r.multipart.value.files);
      WithinConcat(When(mixed, step.name, MultipartMixed), FileIssues(step.name, r.multipart.value.files), 13, 13, 14, 14);
    }
  }

  lemma ShapeInOrder(step: StepSpec, cleanup: bool, catalogue: Option<Catalogue>)
    requires step.request.Some?
    ensures Within(ShapeIssues(step, cleanup, catalogue), 3, 16)
  {
    hide ShapeIssues, FirstFive, ExpectIssues, UploadIssues, When, OutOfRange, ParallelAndSaved, Within;
    ShapeParts(step, cleanup, catalogue);
    FirstInOrder(step, cleanup);
    ExpectInOrder(step, catalogue);
    UploadInOrder(step);
    Alone(OutOfRange(step), step.name, ParallelRange);
    Alone(ParallelAndSaved(step), step.name, ParallelSave);
    var a, b, c := FirstFive(step, cleanup), ExpectIssues(step, catalogue), UploadIssues(step);
    var d, e := When(OutOfRange(step), step.name, ParallelRange), When(ParallelAndSaved(step), step.name, ParallelSave);
    WithinConcat(a, b, 3, 7, 8, 12);
    WithinConcat(a + b, c, 3, 12, 13, 14);
    WithinConcat(a + b + c, d, 3, 14, 15, 15);
    WithinConcat(a + b + c + d, e, 3, 15, 16, 16);
  }

  lemma UndeclaredInOrder(issues: seq<Issue>)
    requires forall i :: i in issues ==> i.Undeclared?
    ensures Within(issues, 17, 17)
  {
    forall i, j | 0 <= i < j < |issues| ensures Place(issues[i]) <= Place(issues[j]) {
      assert issues[i] in issues && issues[j] in issues;
    }
  }

  lemma PlainInOrder(step: StepSpec, declared: set<string>, cleanup: bool, catalogue: Option<Catalogue>)
    ensures InOrder(PlainIssues(step, declared, cleanup, catalogue))
  {
    hide ShapeIssues, UnknownIn, EnumerateTemplates, When, T.Variables, T.IsEnvironment, Fold;
    var head := When(step.concurrentRequests.Some?, step.name, ConcurrentEmpty);
    Alone(step.concurrentRequests.Some?, step.name, ConcurrentEmpty);
    if step.request.Some? {
      var shape, unknown := ShapeIssues(step, cleanup, catalogue), UnknownIn(step.name, EnumerateTemplates(step), declared);
      ShapeInOrder(step, cleanup, catalogue);
      forall i | i in unknown ensures i.Undeclared? { InUnknownIn(step.name, EnumerateTemplates(step), declared, i); }
      UndeclaredInOrder(unknown);
      WithinConcat(shape, unknown, 3, 16, 17, 17);
      WithinConcat(head, shape + unknown, 1, 1, 3, 17);
    } else {
      WhenTrue(step.name, RequestMissing);
      Alone(true, step.name, RequestMissing);
      WithinConcat(head, [Broken(step.name, RequestMissing)], 1, 1, 2, 2);
    }
  }

  // ---- all steps ----

  /** The issue is one of those that a plain step has: a rule that it breaks, or a variable that it mentions and that is
      neither an environment name nor declared. */
  predicate PlainReports(step: StepSpec, declared: set<string>, cleanup: bool, catalogue: Option<Catalogue>, issue: Issue) {
    issue.step == step.name
    && match issue
       case Broken(_, rule) => Breaks(step, cleanup, catalogue, rule)
       case Undeclared(_, name) =>
         step.request.Some? && !T.IsEnvironment(name) && Fold(name) !in declared
         && exists text :: text in EnumerateTemplates(step) && name in T.Variables(text)
  }

  /** A group is reported for what stands beside it, and each of its requests like a plain step. */
  predicate Reports(step: StepSpec, declared: set<string>, cleanup: bool, catalogue: Option<Catalogue>, issue: Issue) {
    if Concurrent(step) then
      (issue == Broken(step.name, ConcurrentConflict)
       && (step.request.Some? || step.save.Some? || step.retry || step.parallelRequests.Some?))
      || exists c :: c in step.concurrentRequests.value && PlainReports(Child(c), declared, cleanup, catalogue, issue)
    else PlainReports(step, declared, cleanup, catalogue, issue)
  }

  /** What is declared before step `k`: to begin with, and the names saved by earlier steps that send one request. */
  predicate DeclaredBefore(steps: seq<StepSpec>, k: nat, declared: set<string>, key: string)
    requires k <= |steps|
  {
    key in declared
    || exists j :: 0 <= j < k && !Concurrent(steps[j]) && steps[j].request.Some? && SavesKey(steps[j], key)
  }

  predicate SavesKey(step: StepSpec, key: string) { step.save.Some? && exists p :: p in step.save.value && Fold(p.0) == key }

  lemma {:induction false} InUnknown(step: string, names: seq<string>, declared: set<string>, issue: Issue)
    ensures issue in Unknown(step, names, declared) <==>
              issue.Undeclared? && issue.step == step && issue.name in names
              && !T.IsEnvironment(issue.name) && Fold(issue.name) !in declared
  {
    hide T.IsEnvironment, Fold;
    if names != [] {
      InUnknown(step, names[1..], declared, issue);
      UnknownNext(step, names, declared);
    }
  }

  lemma {:induction false} InUnknownIn(step: string, texts: seq<string>, declared: set<string>, issue: Issue)
    ensures issue in UnknownIn(step, texts, declared) <==>
              issue.Undeclared? && issue.step == step && !T.IsEnvironment(issue.name) && Fold(issue.name) !in declared
              && exists text :: text in texts && issue.name in T.Variables(text)
  {
    hide T.IsEnvironment, Fold, T.Variables, Unknown;
    if texts != [] {
      InUnknown(step, T.Variables(texts[0]), declared, issue);
      InUnknownIn(step, texts[1..], declared, issue);
      assert UnknownIn(step, texts, declared) == Unknown(step, T.Variables(texts[0]), declared) + UnknownIn(step, texts[1..], declared);
      assert forall t :: t in texts <==> t == texts[0] || t in texts[1..];
    }
  }

  lemma CountIn(issues: seq<Issue>, issue: Issue)
    ensures Count(issues, issue) > 0 <==> issue in issues
  {
  }

  predicate Named(issues: seq<Issue>, step: string) { forall i :: i in issues ==> i.step == step }

  lemma NamedConcat(a: seq<Issue>, b: seq<Issue>, step: string)
    requires Named(a, step) && Named(b, step)
    ensures Named(a + b, step)
  {
  }

  lemma {:induction false} FilesNamed(step: string, files: seq<MultipartFile>)
    ensures Named(FileIssues(step, files), step)
  {
    if files != [] { FilesNamed(step, files[1..]); }
  }

  lemma ShapeNamed(step: StepSpec, cleanup: bool, catalogue: Option<Catalogue>)
    requires step.request.Some?
    ensures Named(ShapeIssues(step, cleanup, catalogue), step.name) && NoneUndeclared(ShapeIssues(step, cleanup, catalogue))
  {
    hide FileIssues, Named, FirstFive, ExpectIssues, UploadIssues, When, ShapeIssues, OutOfRange, ParallelAndSaved, NoneUndeclared;
    ShapeParts(step, cleanup, catalogue);
    ShapeUndeclaresNothing(step, cleanup, catalogue);
    FirstNamed(step, cleanup);
    ExpectNamed(step, catalogue);
    UploadNamed(step);
    WhenNamed(OutOfRange(step), step.name, ParallelRange);
    WhenNamed(ParallelAndSaved(step), step.name, ParallelSave);
    var a, b, c := FirstFive(step, cleanup), ExpectIssues(step, catalogue), UploadIssues(step);
    var d, e := When(OutOfRange(step), step.name, ParallelRange), When(ParallelAndSaved(step), step.name, ParallelSave);
    NamedConcat(a, b, step.name);
    NamedConcat(a + b, c, step.name);
    NamedConcat(a + b + c, d, step.name);
    NamedConcat(a + b + c + d, e, step.name);
  }

  lemma WhenNamed(condition: bool, step: string, rule: Rule)
    ensures Named(When(condition, step, rule), step)
  {
  }

  lemma FirstNamed(step: StepSpec, cleanup: bool)
    requires step.request.Some?
    ensures Named(FirstFive(step, cleanup), step.name)
  {
    hide When, Named;
    var r, name := step.request.value, step.name;
    var a, b := When(r.method_.None? && r.path.None?, name, TransportCount), When(r.body.Some? && r.form.Some?, name, BodyWithForm);
    var c := When(r.body.Some? && r.rawBody.Some?, name, BodyWithRaw);
    var d, e := When(r.form.Some? && r.rawBody.Some?, name, FormWithRaw), When(!cleanup && step.expect_.None?, name, ExpectMissing);
    WhenNamed(r.method_.None? && r.path.None?, name, TransportCount);
    WhenNamed(r.body.Some? && r.form.Some?, name, BodyWithForm);
    WhenNamed(r.body.Some? && r.rawBody.Some?, name, BodyWithRaw);
    WhenNamed(r.form.Some? && r.rawBody.Some?, name, FormWithRaw);
    WhenNamed(!cleanup && step.expect_.None?, name, ExpectMissing);
    NamedConcat(a, b, name);
    NamedConcat(a + b, c, name);
    NamedConcat(a + b + c, d, name);
    NamedConcat(a + b + c + d, e, name);
  }

  lemma ExpectNamed(step: StepSpec, catalogue: Option<Catalogue>)
    ensures Named(ExpectIssues(step, catalogue), step.name)
  {
  }

  lemma UploadNamed(step: StepSpec)
    requires step.request.Some?
    ensures Named(UploadIssues(step), step.name)
  {
    hide FileIssues;
    if step.request.value.multipart.Some? { FilesNamed(step.name, step.request.value.multipart.value.files); }
  }

  lemma PlainNamed(step: StepSpec, declared: set<string>, cleanup: bool, catalogue: Option<Catalogue>, issue: Issue)
    requires issue.Broken? && issue in PlainIssues(step, declared, cleanup, catalogue)
    ensures issue.step == step.name
  {
    hide ShapeIssues, UnknownIn, EnumerateTemplates, When;
    WhenNamed(step.concurrentRequests.Some?, step.name, ConcurrentEmpty);
    if step.request.Some? {
      ShapeNamed(step, cleanup, catalogue);
      InUnknownIn(step.name, EnumerateTemplates(step), declared, issue);
    }
  }

  lemma PlainExactly(step: StepSpec, declared: set<string>, cleanup: bool, catalogue: Option<Catalogue>, issue: Issue)
    ensures issue in PlainIssues(step, declared, cleanup, catalogue) <==> PlainReports(step, declared, cleanup, catalogue, issue)
  {
    hide ShapeIssues, UnknownIn, EnumerateTemplates, When, Count, Breaks, BlankFiles, T.Variables, T.IsEnvironment, Fold;
    if issue.Broken? {
      PlainCount(step, declared, cleanup, catalogue, issue.rule);
      CountIn(PlainIssues(step, declared, cleanup, catalogue), Broken(step.name, issue.rule));
      SomeTimes(step, cleanup, catalogue, issue.rule);
      if issue in PlainIssues(step, declared, cleanup, catalogue) { PlainNamed(step, declared, cleanup, catalogue, issue); }
    } else if step.request.Some? {
      WhenDeclares(step.concurrentRequests.Some?, step.name, ConcurrentEmpty);
      ShapeNamed(step, cleanup, catalogue);
      InUnknownIn(step.name, EnumerateTemplates(step), declared, issue);
    } else {
      WhenDeclares(step.concurrentRequests.Some?, step.name, ConcurrentEmpty);
    }
  }

  lemma SomeTimes(step: StepSpec, cleanup: bool, catalogue: Option<Catalogue>, rule: Rule)
    ensures Times(step, cleanup, catalogue, rule) > 0 <==> Breaks(step, cleanup, catalogue, rule)
  {
    hide FileIssues, BlankFile, ExpectBreaks;
    NotInExpect(step, catalogue);
    if step.request.Some? && step.request.value.multipart.Some? && rule.MultipartFileBlank? {
      FileCount(step.name, step.request.value.multipart.value.files, step.name, rule);
    }
  }

  lemma {:induction false} InChildren(requests: seq<ConcurrentRequest>, declared: set<string>, cleanup: bool,
                                      catalogue: Option<Catalogue>, issue: Issue)
    requires BuiltIns() <= declared
    ensures issue in ChildIssues(requests, declared, cleanup, catalogue) <==>
              exists c :: c in requests && PlainReports(Child(c), declared, cleanup, catalogue, issue)
  {
    hide PlainIssues, PlainReports, BuiltIns, Child;
    if requests != [] {
      assert BuiltIns() + declared == declared;
      PlainExactly(Child(requests[0]), declared, cleanup, catalogue, issue);
      InChildren(requests[1..], declared, cleanup, catalogue, issue);
      assert ChildIssues(requests, declared, cleanup, catalogue) ==
        PlainIssues(Child(requests[0]), declared, cleanup, catalogue) + ChildIssues(requests[1..], declared, cleanup, catalogue);
      assert forall c :: c in requests <==> c == requests[0] || c in requests[1..];
    }
  }

  lemma StepExactly(step: StepSpec, declared: set<string>, cleanup: bool, catalogue: Option<Catalogue>, issue: Issue)
    requires BuiltIns() <= declared
    ensures issue in StepIssues(step, declared, cleanup, catalogue) <==> Reports(step, declared, cleanup, catalogue, issue)
  {
    hide PlainIssues, PlainReports, BuiltIns, ChildIssues;
    if Concurrent(step) {
      InChildren(step.concurrentRequests.value, declared, cleanup, catalogue, issue);
    } else {
      PlainExactly(step, declared, cleanup, catalogue, issue);
    }
  }

  /** The names declared before step `k`. */
  ghost function Before(steps: seq<StepSpec>, k: nat, declared: set<string>): set<string>
    requires k <= |steps|
  {
    if k == 0 then declared else After(steps[k - 1], Before(steps, k - 1, declared))
  }

  lemma {:induction false} BeforeExactly(steps: seq<StepSpec>, k: nat, declared: set<string>, key: string)
    requires k <= |steps|
    ensures key in Before(steps, k, declared) <==> DeclaredBefore(steps, k, declared, key)
  {
    if k > 0 {
      BeforeExactly(steps, k - 1, declared, key);
      var step := steps[k - 1];
      assert key in FirstKeys(SaveOf(step)) <==> SavesKey(step, key);
    }
  }

  lemma {:induction false} BeforeShift(steps: seq<StepSpec>, k: nat, declared: set<string>)
    requires steps != [] && k < |steps|
    ensures Before(steps[1..], k, After(steps[0], declared)) == Before(steps, k + 1, declared)
  {
    hide After;
    if k > 0 { BeforeShift(steps, k - 1, declared); } else { assert Before(steps, 0, declared) == declared; }
  }

  lemma BeforeGrows(step: StepSpec, declared: set<string>)
    ensures declared <= After(step, declared)
  {
  }

  ghost predicate ReportedAt(steps: seq<StepSpec>, declared: set<string>, cleanup: bool, catalogue: Option<Catalogue>,
                             issue: Issue, k: nat)
  {
    k < |steps| && Reports(steps[k], Before(steps, k, declared), cleanup, catalogue, issue)
  }

  /** An issue is reported exactly when some step has it, under what is declared before that step. */
  lemma {:induction false} ReportedExactly(steps: seq<StepSpec>, declared: set<string>, cleanup: bool, catalogue: Option<Catalogue>, issue: Issue)
    requires BuiltIns() <= declared
    ensures issue in IssuesFrom(steps, declared, cleanup, catalogue) <==>
              exists k: nat :: ReportedAt(steps, declared, cleanup, catalogue, issue, k)
  {
    hide StepIssues, Reports, BuiltIns, After;
    if steps != [] {
      StepExactly(steps[0], declared, cleanup, catalogue, issue);
      BeforeGrows(steps[0], declared);
      var after := After(steps[0], declared);
      ReportedExactly(steps[1..], after, cleanup, catalogue, issue);
      assert ReportedAt(steps, declared, cleanup, catalogue, issue, 0) <==> Reports(steps[0], declared, cleanup, catalogue, issue);
      if k: nat :| ReportedAt(steps[1..], after, cleanup, catalogue, issue, k) {
        BeforeShift(steps, k, declared);
        assert ReportedAt(steps, declared, cleanup, catalogue, issue, k + 1);
      }
      if k: nat :| ReportedAt(steps, declared, cleanup, catalogue, issue, k) {
        if k > 0 {
          BeforeShift(steps, k - 1, declared);
          assert ReportedAt(steps[1..], after, cleanup, catalogue, issue, k - 1);
        }
      }
    }
  }
}
