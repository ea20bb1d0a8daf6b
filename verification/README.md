# Tool-QC: a model of its test-case flow, its stores and its parsers

This project models the parts of Tool-QC whose correctness is not visible in one function body, and proves what
they promise. Everything is stated for all inputs, all runs or all interleavings; responses, clocks, random values,
number parsing and hashes are inputs.

`dafny verify dfyconfig.toml` checks the whole project.

## What is modelled

**From the editor to a run.** A user edits a workspace (`Editor`), the server accepts or refuses it
(`Workspaces`; `BindingRules` says with which complaint), the compiler turns it into test-case steps (`Compiler`), the
preflight check reads the steps (`Validator`), and the runner interprets them (`Runner`). All of them meet in the
`${name}` templates (`Templates`). The chain of results is:

- every run of the editor keeps its references sound (`EditorInvariant`), so that the server can object to nothing
  but reserved names and sensitive fields (`EditorServer`) and the compiler cannot fail (`EndToEnd`);
- the field-by-field filling of a route is a simultaneous substitution exactly when the text of each field is left
  alone by the fields after it (`PathTemplates`), and a filled route mentions exactly the placeholders that stand
  behind a dollar sign (`Routes`);
- what a compiled step mentions is therefore known from the workspace (`CompiledNames`), and the check is silent about
  a compiled workspace exactly when the environment, the run or an earlier step supplies all of it; bindings never
  give it anything to report (`CompilerSafety`; `Guards` has a condition on the typed texts that is enough);
- `RunnerMeaning` says when an attempt is prepared, when an assertion, an attempt, a retried step and a run pass, and
  what they report and store, without following the interpreter; `RunMeaning` goes on to a case and a chain; `CheckRules`
  says rule by rule what the check reports, and `CompiledTexts` what a compiled body and a compiled address say when they
  are read again;
- when the check is silent, no attempt of any step in any run misses a variable (`Preflight`), nor in any chain of cases
  that leave their variables to one another (`Chain`); the three conditions under which runtime texts may differ from
  the texts in the file, each relative to what is declared at the step, are exact (`PreflightLimits.ConstantsExactly`,
  `PreflightLimits.BaseNameExactly`, `PreflightLimits.MessagesExactly`);
- what the runner still refuses as invalid after a silent check is known exactly, for each run (`PreflightShape`) and
  over all runs (`Refusals`); a compiled step is never refused (`EndToEnd.CompiledIsNeverRefused`);
- composed: what a user builds in the editor and the server accepts never misses a variable at run time, when what was
  typed by hand is supplied (`EndToEnd.EditorRunsMissNothing`), and a workspace that mentions anything else has no
  passing run (`EndToEnd.PassingRunsAreSupplied`).

**Concurrency, as step relations.** `SaveProtocol` is the optimistic-revision save with its gates, its temporary
files and its unlocked readers; it refines an atomic save. `IntegrationHost` is the HTTP host with its 32-bit counters
and the queue that every handler trims after it has enqueued; `QueueBound` shows that the bound on its loss is exact.

**Parsers, evaluators, walks.** `JsonPath` (wildcards against the single-valued evaluators), `Schemas` (JSON schema
validation against what it means to conform), `GenericTypes`, `CellReferences`, `TypeGraph` (depth-first walk over a
table that may be cyclic).

**Loops with conservation laws.** `RowFolding` and `RowReader` (rows into campaigns), `CampaignMerge`, `SheetNames`
(a pigeonhole argument for termination), `VerifySuite` (generated suites are closed), `LoadDiagnostics` (the nearest
rank). `RowMeaning` and `SuiteMeaning` say the same of one row and of a whole suite, cell by cell and member by member.

`Optional`, `Text`, `Int32`, `Dictionaries`, `Steps` and `VerifyModels` hold the vocabulary the others share. Where the
source updates objects in place the model does too: `Runner.VariableStore`, `Validator.IssueList`,
`Editor.ApiBuilderPage`, `TypeGraph.NameSet`, `IntegrationHost.RuleState`, `RowReader.MutableCampaign` and
`RowReader.MutableGroup` are classes whose methods are proved against the functions that the lemmas are about.

## What the proofs found in the code

- The check reads assertion constants as they stand in the file, the runner decodes them first. An escape such as
  `\u0024` hides a variable from the check, which is harmless exactly when what it decodes to is declared. File names
  taken from a resolved path are resolved a second time, which is harmless exactly when the last segment of the path
  mentions no variable. Catalogue codes and messages are resolved without ever being checked, which is harmless exactly
  when those that are added mention declared variables only (`PreflightLimits`).
- Five kinds of HTTP step pass the check and are refused by the runner as invalid: without a method or without a path,
  with more than 1000 concurrent requests, with a retry of parallel requests, without a status (`expect` may be empty,
  and so may `statusOneOf`), and, once a response leads there, with a type name in an assertion or in the schema that the
  runner does not know. Nothing else is (`PreflightShape.RefusedExactly`); where the type names are known, the first
  four are exactly the steps that some run refuses (`Refusals.NeverRefusedExactly`).
- A placeholder that no field fills becomes a variable exactly when the value before it ends in `$`
  (`EndToEnd.TrailingDollarExactly`); the exact condition for any route without stray braces is
  `Routes.FilledMentions`. What a compiled address mentions can be read off the typed texts exactly for such routes
  only; for others `CompiledNames` takes the names of the compiled address itself, and `CompilerSafety.LiteralIsEnough`
  covers them one way. A variable bound into a route is overwritten by a later path field of the variable's name
  (`PathTemplates.BoundNameIsOverwritten`).
- Page and server accept variable names in any alphabet, but the template pattern is ASCII: the text that stands for such
  a variable is sent as it is, and the check sees nothing in it (`CompiledNames.BoundNameIsRead`).
- The call counter of a response sequence is a signed 32-bit integer: after 2^31 calls a rule answers with an
  exception, after 2^32 it begins again (`IntegrationHost.ServedExactly`).
- With `n` handlers in flight the capture queue can fall up to `n - 1` entries below its limit
  (`IntegrationHost.QuietQueue`), and some run does (`QueueBound.BoundIsReached`).
- A nullable generic type has a key with its true arity, but the argument splitter returns no arguments for it
  (`GenericTypes.ArgumentsRoundTrip`, `GenericTypes.TypeKeyExactly`).
- The second day's candidate campaign is dropped only while the first day's candidate is still an unmerged entry of the
  list; otherwise its schedules are kept (`CampaignMerge.MergeGroups`).

## Model

| member | source | states |
|---|---|---|
| Templates.MatchLengthCorrect | src/AutoTest.Abstractions/JsonTools.cs:6 | the pattern matches exactly one prefix of a text or none, character by character, and the scanner finds it |
| Templates.ResolveNames | src/AutoTest.Abstractions/JsonTools.cs:7 | substitution succeeds exactly when every scanned name is available; a failure names a scanned variable that is missing |
| Templates.ResolveFrame | src/AutoTest.Abstractions/JsonTools.cs:7 | the result depends only on the answers to the scanned names |
| Templates.ScannerAgrees | src/AutoTest.Abstractions/JsonTools.cs:6-8 | substitution succeeds exactly when every variable that `Variables` reports, distinct ignoring case, is in the store and every environment name that occurs, in its own spelling, is there |
| Templates.ResolveSplit | src/AutoTest.Abstractions/JsonTools.cs:6-7 | a text may be resolved in two parts wherever no match can straddle the cut |
| Templates.ScanPrint | src/AutoTest.Abstractions/JsonTools.cs:6 | reading a printed template gives back its literals and variables |
| Templates.PrintScan | src/AutoTest.Abstractions/JsonTools.cs:6 | every text is the print of its reading, whose literals hold no match and are maximal |
| Templates.ResolveIsSubstitution | src/AutoTest.Abstractions/JsonTools.cs:7 | `Resolve` is the simultaneous substitution of that reading: literals stay, substituted text is not read again |
| Templates.NamesAreOccurrences | src/AutoTest.Abstractions/JsonTools.cs:6-8 | a name is scanned exactly when its placeholder occurs somewhere in the text |
| Templates.NamesSplit | src/AutoTest.Abstractions/JsonTools.cs:6-8 | a text may be scanned in two parts wherever no match can straddle the cut |
| Templates.PlaceholderMeans | src/AutoTest.Abstractions/JsonTools.cs:7 | a placeholder stands for the environment value under the rest of a name that begins with `env:` in any case, and otherwise for the stored value of the name ignoring case |
| JsonPath.TrySelect | src/AutoTest.Integration.Http/HttpSupport.cs:71-82 | the loop finds exactly what the walk along the path parts selects |
| JsonPath.SelectMany | src/AutoTest.Abstractions/JsonTools.cs:14 | the loop over rebuilt lists yields the selection, and its exception exactly for paths that do not start with `$` |
| JsonPath.SelectManyDenotes | src/AutoTest.Abstractions/JsonTools.cs:14 | the result lists, in strict lexicographic index order, the single-valued selection at exactly the instantiations of the wildcards |
| JsonPath.PicksExact | src/AutoTest.Abstractions/JsonTools.cs:14 | the enumerated index choices are exactly the instantiations at which the path can be walked |
| JsonPath.PicksSorted | src/AutoTest.Abstractions/JsonTools.cs:14 | they come in strict lexicographic order |
| JsonPath.NoWildcardAgrees | src/AutoTest.Integration.Http/HttpSupport.cs:45-82 | without wildcards the selection has one element exactly when the single-valued evaluators succeed, with the same value |
| JsonPath.PathExactly | src/AutoTest.Abstractions/JsonTools.cs:14 | a path's parts are exactly the texts between its dots, and a path without `$.` in front selects nothing but, as `$`, the root |
| JsonPath.StepExactly | src/AutoTest.Abstractions/JsonTools.cs:14 | one path part leads to the last member of that name, or to the item at a numeral within the array, and nowhere else |
| JsonPath.SelectIsFirst | src/AutoTest.Abstractions/JsonTools.cs:13 | the single selection is the first of all |
| Text.DecimalExactly | src/AutoTest.ProjectAdapters.BeBooking/VerifyWorkbookParser.cs:149 | a printed number is in base ten with the usual digits |
| Text.FoldExactly | src/AutoTest.Core/RunnerEngine.cs:63 | names are told apart ignoring the case of ASCII letters and nothing else |
| Int32.ParseIntExactly | src/AutoTest.Abstractions/JsonTools.cs:14 | a text reads as a 32-bit integer exactly when, white space aside, it is a numeral in range with at most one sign |
| Validator.ValidateSteps | src/AutoTest.TestValidation/TestcaseValidator.cs:148-249 | appends exactly the issues of the steps, read with the built-in, case and saved names; which those are is `CheckRules.ReportedExactly` |
| Validator.ValidateStep | src/AutoTest.TestValidation/TestcaseValidator.cs:156-174 | appends the issues of one step, or of each of its concurrent requests (`CheckRules.StepExactly`) |
| Validator.ReportUnknown | src/AutoTest.TestValidation/TestcaseValidator.cs:243-246 | appends one issue for each variable that is neither an environment name nor declared |
| Validator.UnknownInExact | src/AutoTest.TestValidation/TestcaseValidator.cs:243-246 | no variable is reported for a list of texts exactly when every scanned name of every text is declared |
| Validator.IssuesExact | src/AutoTest.TestValidation/TestcaseValidator.cs:148-249 | no undeclared variable is reported exactly when, step by step, every variable is built in, a case variable, or saved by an earlier step |
| CheckRules.ReportedExactly | src/AutoTest.TestValidation/TestcaseValidator.cs:148-249 | an issue is reported for a case exactly when some step has it: a rule broken by the fields of the step, of one of its concurrent requests or of what stands beside them, or an undeclared variable in a text that is read; `CheckRules.Breaks` says rule by rule what breaks it |
| CheckRules.StepExactly | src/AutoTest.TestValidation/TestcaseValidator.cs:156-246 | the same for one step, under what is declared before it |
| CheckRules.PlainCount | src/AutoTest.TestValidation/TestcaseValidator.cs:119-242 | every broken rule is reported once, and a file without field or path once per such file |
| CheckRules.PlainInOrder | src/AutoTest.TestValidation/TestcaseValidator.cs:119-246 | the issues of a step come in the order of the rules, variables last |
| CheckRules.BeforeExactly | src/AutoTest.TestValidation/TestcaseValidator.cs:152-247 | declared before a step are the names to begin with and those saved by earlier steps that send one request |
| CheckRules.ReadExactly | src/AutoTest.TestValidation/TestcaseValidator.cs:251-292 | exactly these texts of a step are read: token, path, payloads, form, fields, files, headers, and the constants and patterns of its assertions |
| Runner.Run | src/AutoTest.Core/RunnerEngine.cs:57-114 | a run of a case in place computes what the interpreter function says, from the initial variables |
| Runner.RunAll | src/AutoTest.Core/RunnerEngine.cs:96-97 | steps run in order on one store and stop at the first failure |
| Runner.RunConfigured | src/AutoTest.Core/RunnerEngine.cs:134-214 | one configured step: refused combinations, retry, parallel copies, concurrent requests |
| Runner.RunStepWithRetry | src/AutoTest.Core/RunnerEngine.cs:237-266 | polls until an attempt passes, then a last attempt; a failure reports the last poll's reason |
| Runner.RunBranches | src/AutoTest.Core/RunnerEngine.cs:142-175 | branches run on copies and leave the store alone |
| Runner.ExecuteStep | src/AutoTest.Http/HttpStepExecutor.cs:26-75 | one HTTP attempt in place: every template use in its order, then judgement and saves |
| Runner.AssertThenSave | src/AutoTest.Http/HttpStepExecutor.cs:102 | assertions on the response body, then the saves |
| Runner.SaveInto | src/AutoTest.Http/HttpStepExecutor.cs:102 | saves in order; what was saved before a failing save stays |
| Runner.VariableStore.Put | src/AutoTest.Core/RunnerEngine.cs:93-94 | sets one variable, ignoring the case of its name |
| RunnerMeaning.AssertValueExactly | src/AutoTest.Http/HttpStepExecutor.cs:103 | an assertion on one value passes exactly when every part of its rule holds: equality of numbers or of texts, containment, patterns, one of several, the type, the bounds |
| RunnerMeaning.AssertEntriesExactly | src/AutoTest.Http/HttpStepExecutor.cs:102 | the assertions on a response pass exactly when each path can be read, presence is as required, the count of items, members or values is as required, and every selected value satisfies the rule |
| RunnerMeaning.SaveAllExactly | src/AutoTest.Http/HttpStepExecutor.cs:102 | saving passes exactly when every path selects something; then each name holds the text of its last save and nothing else has changed |
| RunnerMeaning.PrepareExactly | src/AutoTest.Http/HttpStepExecutor.cs:28-71 | a request can be sent exactly when method, path and message are there, a login is at hand where one is asked for, there is one kind of content, and path, payload, form, described expectation, headers, fields and files can be resolved |
| RunnerMeaning.ExecuteExactly | src/AutoTest.Http/HttpStepExecutor.cs:26-75 | an attempt passes exactly when its request can be built, a response comes in time with a status of the list, the one status or that of the error code, and its body conforms, bears out every assertion, reports the error code and its message, and has what is saved |
| RunnerMeaning.PassingStores | src/AutoTest.Http/HttpStepExecutor.cs:102 | a passing attempt leaves under each saved name the first text its last path selects, and changes nothing else |
| RunnerMeaning.RetryExactly | src/AutoTest.Core/RunnerEngine.cs:237-266 | a retried step passes exactly when some poll or the last attempt does, each in the store the ones before have left; it stops at the first that passes |
| RunnerMeaning.RetryReports | src/AutoTest.Core/RunnerEngine.cs:237-266 | a failing retry reports the reason of its last poll, and ends in the store of its last attempt |
| RunnerMeaning.BranchesExactly | src/AutoTest.Core/RunnerEngine.cs:142-213 | branches pass exactly when each passes on its own in the common store, which stays as it was |
| RunnerMeaning.BranchesReport | src/AutoTest.Core/RunnerEngine.cs:167-213 | a failing group reports the failure of its first branch that fails |
| RunnerMeaning.RunExactly | src/AutoTest.Core/RunnerEngine.cs:96-103 | a run passes exactly when every step passes in the store the steps before it have left |
| RunnerMeaning.RunIsTraced | src/AutoTest.Core/RunnerEngine.cs:96-103 | a run is the runs of its steps up to the first that fails, with all their attempts and the outcome and store of the last |
| Preflight.PreflightSound | src/AutoTest.TestValidation/TestcaseValidator.cs:148-293 | when the check reports no undeclared variable and the runtime texts are those in the file (under the exact conditions below), no attempt of any step in any run misses a variable |
| Preflight.RunStepsSound | src/AutoTest.Core/RunnerEngine.cs:96-97 | the same for any suffix of the steps and any larger store |
| Preflight.StepSound | src/AutoTest.Core/RunnerEngine.cs:134-214 | the same for one step with its retries, parallel copies or concurrent requests |
| Preflight.ExecuteSound | src/AutoTest.Http/HttpStepExecutor.cs:26-75 | the same for one HTTP attempt, whatever the response |
| Preflight.StepDomain | src/AutoTest.Core/RunnerEngine.cs:134-266 | a step never removes a variable, a passing one leaves exactly the names that the check holds declared after it, and branches leave the store alone |
| Preflight.ExecuteDomain | src/AutoTest.Http/HttpStepExecutor.cs:26-102 | an attempt removes no variable, adds only its saves, and all of them when it passes |
| Preflight.BranchesKeepStore | src/AutoTest.Core/RunnerEngine.cs:155-157 | parallel and concurrent branches leave the store as it was |
| Preflight.FaithfulIsExact | src/AutoTest.Http/HttpStepExecutor.cs:103-105 | a constant may be checked by its raw text whatever is declared exactly when decoding reveals no variable that the raw text does not show |
| Preflight.EscapeFreeIsFaithful | src/AutoTest.Http/HttpStepExecutor.cs:103-105 | constants without escapes are of that kind |
| Preflight.PassingIsDeclared | src/AutoTest.TestValidation/TestcaseValidator.cs:243-247 | conversely, whatever a passing run resolves before sending (path, payload, form, expectation, token, headers, fields, files) was declared in the check's sense |
| Chain.RunChain | runner/AutoTest.Runner/Program.cs:54-67 | the cases run in order on shared variables and stop at the first that does not pass |
| Chain.RunInChain | src/AutoTest.Core/RunnerEngine.cs:86-103 | one case starts from its own values and the shared ones, and leaves its variables to the others exactly when it passes |
| RunMeaning.ConfiguredExactly | src/AutoTest.Core/RunnerEngine.cs:134-214 | a step is refused, with nothing sent or stored, exactly when it is misconfigured; otherwise it passes exactly when each of its requests, some attempt, or its one attempt does |
| RunMeaning.CaseExactly | src/AutoTest.Core/RunnerEngine.cs:63-95 | a case starts exactly when it is allowed to and all its variables can be filled in, one on top of the other, over the shared values and the run's own |
| RunMeaning.ChainExactly | runner/AutoTest.Runner/Program.cs:54-67 | result by result the chain is its cases, each on what the passing ones before it share, ended by the first that does not pass |
| Chain.ChainSound | runner/AutoTest.Runner/Program.cs:46-66 | when the check is silent about each case on its own, no attempt of any case in the chain misses a variable |
| Chain.PassingChainIsDeclared | runner/AutoTest.Runner/Program.cs:54-67 | a chain can pass only if what each case sends mentions what it starts with, what earlier cases leave to it, or what its own earlier steps save |
| Schemas.ValidateExactly | src/AutoTest.Http/SimpleJsonSchema.cs:6-15 | validation passes exactly for the values on which every keyword holds, through members and items, and throws over a type name exactly when the first part that does not conform leads to an unknown one |
| Schemas.TypeNamesExactly | src/AutoTest.Http/HttpStepExecutor.cs:104 | the eight type names, ignoring case, and the values of each |
| PreflightShape.RefusedExactly | src/AutoTest.TestValidation/TestcaseValidator.cs:159-242 | in any run, a step without a structural complaint is refused exactly when it lacks a method or a path, has more than 1000 concurrent requests, or retries parallel ones, or when an attempt that is made gets a response and then accepts no status or meets an unknown type name |
| PreflightShape.AttemptInvalid | src/AutoTest.Http/HttpStepExecutor.cs:28-75 | an attempt at a well-shaped step is refused exactly when the step lacks a method or a path, or a prepared request gets a response and the step accepts no status or leads to an unknown type name |
| PreflightShape.EntriesInvalid | src/AutoTest.Http/HttpStepExecutor.cs:102-104 | assertions stop at a type name exactly when some entry comes to an unknown one with everything before it met |
| Refusals.NeverRefusedExactly | src/AutoTest.Http/HttpStepExecutor.cs:26-75 | a step that passes the check, with known type names, is refused in no run at all exactly when it has a method and a path, at most 1000 concurrent requests, no retry of parallel ones, and a status in each request |
| Refusals.CanBePrepared | src/AutoTest.Http/HttpStepExecutor.cs:28-66 | every well-shaped request with a method and a path can be sent with some variables, some environment and any response: no template stands in the way |
| Refusals.UnknownTypesAreRefused | src/AutoTest.Http/SimpleJsonSchema.cs:15 | a step that passes the check and whose schema, or first assertion, asks first of all for an unknown type is refused in some run |
| Refusals.MissingStatusIsNotChecked | src/AutoTest.Http/HttpStepExecutor.cs:71 | a request whose status is left out, or whose list of statuses is empty, passes the check without an issue and is refused in some run |
| PreflightShape.PlainSilent | src/AutoTest.TestValidation/TestcaseValidator.cs:175-242 | silence of the check about one request gives the shape that an attempt demands |
| PreflightLimits.ConstantsExactly | src/AutoTest.Http/HttpStepExecutor.cs:103 | where the check is content with a rule, no comparison that the rule makes, on any value and in any store that holds what is declared, misses a variable exactly when its decoded constants are declared |
| PreflightLimits.RuleMissesExactly | src/AutoTest.Http/HttpStepExecutor.cs:103 | the same of the whole assertion on a value, for a rule that does not ask for one value and for one of several at once |
| PreflightLimits.OptionsBehindExpected | src/AutoTest.Http/HttpStepExecutor.cs:103 | of a rule that asks for both, an option that stands behind the expected value is never asked |
| PreflightLimits.PreparingExactly | src/AutoTest.Http/HttpStepExecutor.cs:28-75 | an attempt at a checked step misses nothing before it is sent, whatever the response would be, exactly when its expected constants are declared once decoded |
| PreflightLimits.EscapesHideVariables | src/AutoTest.Http/HttpStepExecutor.cs:103-105 | a constant whose decoding is a missing placeholder passes the check and fails every run |
| PreflightLimits.EscapedConstant | src/AutoTest.Http/HttpStepExecutor.cs:103-105 | there is such a constant |
| PreflightLimits.BaseNameExactly | src/AutoTest.Http/HttpStepExecutor.cs:58-66 | no store that covers the path of a nameless file makes the upload miss a variable exactly when the last segment of the path mentions none |
| PreflightLimits.FileNamesAreReadTwice | src/AutoTest.Http/HttpStepExecutor.cs:58-66 | at the level of a whole attempt: a declared file path whose base name is a missing placeholder passes the check and fails |
| PreflightLimits.MessagesExactly | src/AutoTest.Http/HttpStepExecutor.cs:76-94 | no response makes the entries that the catalogue adds miss a variable exactly when the code and the message in the chosen language, where they are added, mention declared variables only; this is about asserting the added entries by themselves, as the step's own assertions may fail before them |
| PreflightLimits.MessagesAreNotChecked | src/AutoTest.Http/HttpStepExecutor.cs:76-94 | at the level of a whole attempt: a catalogue message that is a missing placeholder passes the check and fails |
| BindingRules.BindingExactly | runner/AutoTest.Web/ApiBuilderWorkspace.cs:118-162 | which complaint is made about a binding, or none, by what its names find once, twice or not at all, and by the types and the secrecy of the fields |
| BindingRules.ValidateExactly | runner/AutoTest.Web/ApiBuilderWorkspace.cs:105-119 | what is said about a whole workspace: bad variables, names there twice, bad steps, then the first complaint about a binding |
| Workspaces.AcceptedBinding | runner/AutoTest.Web/ApiBuilderWorkspace.cs:122-149 | an accepted binding has a unique target step, a variable of its name, and a strictly earlier step that returns the variable's field |
| Workspaces.BindingExactly | runner/AutoTest.Web/ApiBuilderWorkspace.cs:122-157 | a binding is accepted exactly when its target, its variable, the variable's earlier source and both fields are each the only one, and the fields may be joined |
| Workspaces.BindingsAccepted | runner/AutoTest.Web/ApiBuilderWorkspace.cs:118-119 | the bindings are accepted exactly when each of them is |
| Workspaces.Find | runner/AutoTest.Web/ApiBuilderWorkspace.cs:148-149 | absent, the only match, or an exception for several |
| Editor.ApiBuilderPage.AddOperation | runner/AutoTest.Web/wwwroot/ui/api-builder.js:84-95 | appends the first operation of that id as a step with its method, its route, its fields without values and a numbered name, or changes nothing |
| Editor.ApiBuilderPage.SaveVariable | runner/AutoTest.Web/wwwroot/ui/api-builder.js:239-265 | saves exactly when the trimmed name is a word and free ignoring case; then one variable more, of that name and with step, path and type of the chosen field, and everything else as it was |
| Editor.ApiBuilderPage.AssignVariable | runner/AutoTest.Web/wwwroot/ui/api-builder.js:225-238 | the filter loop and the copied steps: afterwards the bindings are the old ones into other fields and the chosen one into this field, whose shown value is its placeholder |
| Editor.ApiBuilderPage.EditField | runner/AutoTest.Web/wwwroot/ui/api-builder.js:179-191 | the write into copied steps changes the value of that one request field and nothing else of the workspace |
| Editor.ApiBuilderPage.RemoveOperation | runner/AutoTest.Web/wwwroot/ui/api-builder.js:192-224 | the filter, map and find loops compute the removal with its simultaneous renaming |
| EditorInvariant.RemovedExactly | runner/AutoTest.Web/wwwroot/ui/api-builder.js:192-224 | what is left: the variables of other steps, the bindings into other steps of variables not saved from the removed one, each under its step's new name, and the other steps numbered anew |
| EditorInvariant.EditorKeepsInvariant | runner/AutoTest.Web/wwwroot/ui/api-builder.js:24-265 | over every run, given unique request field ids in the contract: numbered step names, every step still its operation apart from name and typed values, every variable saved from an existing field, one binding per field, every binding from a strictly earlier step into an existing field of equal type |
| EditorInvariant.StepNamesDistinct | runner/AutoTest.Web/wwwroot/ui/api-builder.js:24-34 | steps with equal names ignoring case are the same step |
| EditorInvariant.RemoveKeeps | runner/AutoTest.Web/wwwroot/ui/api-builder.js:192-224 | the simultaneous renumbering after a removal keeps all of it |
| EditorInvariant.AssignKeeps | runner/AutoTest.Web/wwwroot/ui/api-builder.js:118-124 | so does assigning an offered variable |
| EditorInvariant.SaveKeeps | runner/AutoTest.Web/wwwroot/ui/api-builder.js:239-265 | so does saving a variable |
| EditorInvariant.AddKeeps | runner/AutoTest.Web/wwwroot/ui/api-builder.js:84-95 | so does adding an operation |
| EditorInvariant.RenamedInjective | runner/AutoTest.Web/wwwroot/ui/api-builder.js:210-220 | renaming tells the surviving steps apart |
| EditorServer.EditorBinding | runner/AutoTest.Web/ApiBuilderWorkspace.cs:122-146 | under a contract with methods, rooted routes, named fields and distinct response paths, a binding made in the editor passes every server check except, possibly, the one against sensitive fields |
| EditorServer.ServerAccepts | runner/AutoTest.Web/ApiBuilderWorkspace.cs:105-180 | under such a contract the server accepts an editor's workspace exactly when no variable has a reserved name and no binding joins a sensitive field |
| PathTemplates.ReplaceAllFillsEach | runner/AutoTest.Web/ApiBuilderCompiler.cs:90-91 | on a route without stray braces the replacements fill the gaps field by field, and later fields read what earlier ones put in |
| PathTemplates.ReplaceAllIsFillExactly | runner/AutoTest.Web/ApiBuilderCompiler.cs:87-94 | replacing field by field is the simultaneous substitution on every such route exactly when the text of each field, the first of its name, is left alone by the fields after it |
| PathTemplates.ReplaceAllIsFill | runner/AutoTest.Web/ApiBuilderCompiler.cs:87-94 | in particular when no value contains the placeholder of a later field |
| PathTemplates.ReplaceFills | runner/AutoTest.Web/ApiBuilderCompiler.cs:91 | one replacement fills all gaps of a name ignoring case and nothing else |
| PathTemplates.BoundNameIsOverwritten | runner/AutoTest.Web/ApiBuilderCompiler.cs:87-94 | the condition fails for every variable bound into the route before a path field of its name: `${v}` contains `{v}` |
| Routes.TidyTextExactly | runner/AutoTest.Web/ApiBuilderCompiler.cs:90-91 | the reading decides whether a text has stray braces |
| Routes.ShownNames | src/AutoTest.Abstractions/JsonTools.cs:6-8 | in such a text exactly the placeholders behind a dollar sign are scanned as variables |
| Routes.FilledMentions | runner/AutoTest.Web/ApiBuilderCompiler.cs:87-94 | a compiled route mentions a variable exactly when its placeholder stands behind a dollar sign in the filled route, filled at once where no field is overwritten |
| Compiler.Values | runner/AutoTest.Web/ApiBuilderCompiler.cs:79-85 | each field's value is its literal, or the placeholder of the last binding into it |
| Compiler.FillPath | runner/AutoTest.Web/ApiBuilderCompiler.cs:87-94 | the route with its path fields replaced in order and its query appended |
| Compiler.FillBody | runner/AutoTest.Web/ApiBuilderCompiler.cs:45-53 | the loop builds the body from the fields of that location |
| Compiler.FillHeaders | runner/AutoTest.Web/ApiBuilderCompiler.cs:46-55 | the loop builds the headers from the fields of that location |
| Compiler.CompileStep | runner/AutoTest.Web/ApiBuilderCompiler.cs:37-77 | one plain request per step: its own name, method and address, a body exactly where a field goes there, status 200 as the whole expectation, and exactly the variables saved from it |
| Compiler.Compile | runner/AutoTest.Web/ApiBuilderCompiler.cs:8-14 | succeeds exactly when there are steps, keys and saved names are distinct and saved fields are returned; then step by step that translation |
| Compiler.BoundToLast | runner/AutoTest.Web/ApiBuilderCompiler.cs:82-83 | a field is bound when some binding goes into it, and then to the source of the last one |
| Compiler.LastFieldWins | runner/AutoTest.Web/ApiBuilderCompiler.cs:45-55 | each body member, told apart exactly, and each header, ignoring case, is there once with the value of the last field of its name |
| Compiler.Saves | runner/AutoTest.Web/ApiBuilderCompiler.cs:60-65 | a step saves exactly the variables whose source it is |
| CompiledTexts.BodyReads | runner/AutoTest.Web/ApiBuilderCompiler.cs:45-57 | the body, read as a JSON object, has each body field's name once, with the text of the last field of that name |
| CompiledTexts.HexExactly | runner/AutoTest.Web/ApiBuilderCompiler.cs:52-57 | escapes are written in capital hexadecimal digits |
| CompiledTexts.EscapeReads | runner/AutoTest.Web/ApiBuilderCompiler.cs:52-57 | what was escaped decodes to the same text, and ends no string early |
| CompiledTexts.AddressReads | runner/AutoTest.Web/ApiBuilderCompiler.cs:87-94 | the address is the filled route, and exactly when fields go into the query a question mark and their assignments, which can be read off again |
| CompiledTexts.ValueExactly | runner/AutoTest.Web/ApiBuilderCompiler.cs:79-85 | a field holds what was typed, or the placeholder of the last binding whose step, ignoring case, and field id are its own |
| CompiledTexts.CompilableExactly | runner/AutoTest.Web/ApiBuilderCompiler.cs:8-67 | exactly those workspaces compile that have steps, in each different field ids, variables of different names, and a response field behind every variable |
| CompiledTexts.LocationExactly | runner/AutoTest.Web/ApiBuilderCompiler.cs:96-97 | a field goes where it says, or into the route when the route has its placeholder, or into the body |
| Guards.ReplaceGuarded | runner/AutoTest.Web/ApiBuilderCompiler.cs:91 | filling a placeholder leaves every `${` in front of an intact known name |
| Guards.ReplaceAllGuarded | runner/AutoTest.Web/ApiBuilderCompiler.cs:90-91 | so does filling all path fields in order when each value keeps clear of the later ones |
| Guards.GuardedNames | src/AutoTest.Abstractions/JsonTools.cs:6-8 | in such a text every scanned variable is known |
| CompiledNames.EscapeNames | runner/AutoTest.Web/ApiBuilderCompiler.cs:52-57 | JSON escaping neither hides a variable nor makes one |
| CompiledNames.BodyNames | runner/AutoTest.Web/ApiBuilderCompiler.cs:45-57 | a compiled JSON body mentions exactly what its keys and values mention |
| CompiledNames.PathNames | runner/AutoTest.Web/ApiBuilderCompiler.cs:87-97 | a compiled address mentions exactly what its filled route and its query mention |
| CompiledNames.CompiledMentions | runner/AutoTest.Web/ApiBuilderCompiler.cs:37-97 | what the check reads of a compiled step mentions exactly the variables read off the workspace, in that order |
| CompiledNames.BoundNameIsRead | runner/AutoTest.Web/ApiBuilderCompiler.cs:82-83 | the text of a bound field is read as its variable exactly when the name is ASCII, and is sent as it stands otherwise |
| CompilerSafety.BindingSaved | runner/AutoTest.Web/ApiBuilderCompiler.cs:60-75 | the variable of an accepted binding is saved, under its own path, by a strictly earlier compiled step |
| CompilerSafety.SilentExactly | src/AutoTest.TestValidation/TestcaseValidator.cs:148-249 | in what any workspace compiles to, the check finds no undeclared variable exactly when the environment, the run or an earlier step supplies every variable that a step mentions |
| CompilerSafety.CompilationPreservesDeclaredness | runner/AutoTest.Web/ApiBuilderCompiler.cs:8-97 | in what a valid workspace compiles to, it finds none exactly when what a step mentions without having it bound is supplied: bindings never give it anything to report |
| CompilerSafety.LiteralIsEnough | runner/AutoTest.Web/ApiBuilderCompiler.cs:8-97 | a condition on the typed texts that is enough for that, stray braces or not |
| EndToEnd.EditorCompiles | runner/AutoTest.Web/ApiBuilderCompiler.cs:8-67 | every non-empty workspace that the editor reaches compiles |
| EndToEnd.CompiledPassesTheCheck | src/AutoTest.TestValidation/TestcaseValidator.cs:148-249 | the check has nothing at all to say about what a valid workspace compiles to exactly when what was typed into it mentions supplied variables only |
| EndToEnd.CompiledIsNeverRefused | src/AutoTest.Core/RunnerEngine.cs:134-214 | nor does the runner refuse a compiled step, in any run |
| EndToEnd.CompiledRunsMissNothing | src/AutoTest.Core/RunnerEngine.cs:57-266 | then no run of it misses a variable |
| EndToEnd.PassingRunsAreSupplied | src/AutoTest.Core/RunnerEngine.cs:57-266 | conversely, on the run's own values a compiled workspace can pass only if every variable that it mentions is supplied |
| EndToEnd.EditorRunsMissNothing | runner/AutoTest.Web/wwwroot/ui/api-builder.js:24-265 | from the first edit under such a contract to the last attempt: an accepted editor workspace compiles, and, when what was typed by hand is supplied, no run of it misses a variable |
| EndToEnd.TrailingDollarExactly | runner/AutoTest.Web/ApiBuilderCompiler.cs:87-94 | a literal path value before an unfilled placeholder compiles to a use of an undeclared variable exactly when it ends in a dollar sign |
| SaveProtocol.StepKeeps | runner/AutoTest.Web/WorkspacePersistence.cs:9-37 | every step of every saver and reader keeps the protocol's invariant |
| SaveProtocol.RevisionsAreConsecutive | runner/AutoTest.Web/ApiBuilderWorkspace.cs:62-76 | committed revisions are 1, 2, 3, ..., each made directly on the one before by a saver that asked for no revision or for exactly that one, with its whole text |
| SaveProtocol.OneCommitPerExpectation | runner/AutoTest.Web/UnitXWorkspace.cs:36-48 | of the saves of one path that expected the same revision at most one is saved |
| SaveProtocol.ReadersSeeWholeVersions | runner/AutoTest.Web/WorkspacePersistence.cs:24-37 | an unlocked reader sees a prefix of one committed version, and the whole version at the end of the file |
| SaveProtocol.RevisionRead | runner/AutoTest.Web/ApiBuilderWorkspace.cs:68 | what is read under the gate is the last committed revision |
| SaveProtocol.NewCommit | runner/AutoTest.Web/ApiBuilderWorkspace.cs:72-73 | what is renamed into place is the whole text, made directly on the revision that was read |
| SaveProtocol.DecisionIsAtomic | runner/AutoTest.Web/ApiBuilderWorkspace.cs:66-75 | a save that asks for nothing or for the last revision adds its text as the next version in one step, and any other is a conflict and changes nothing; other paths stay as they are |
| SaveProtocol.OtherStepsDecideNothing | runner/AutoTest.Web/WorkspacePersistence.cs:9-37 | no other step changes a version or decides a save |
| SaveProtocol.RunIsAtomic | runner/AutoTest.Web/UnitXWorkspace.cs:36-48 | every interleaving leaves the versions that the atomic saves leave, in the order of their decisions |
| SaveProtocol.ComparisonExactly | runner/AutoTest.Web/ApiBuilderWorkspace.cs:69 | a saver is turned away exactly when it asks for a revision other than the number of commits, and goes on exactly otherwise |
| SaveProtocol.CanSave | runner/AutoTest.Web/ApiBuilderWorkspace.cs:62-76 | a waiting saver whose gate is open can finish on its own, with the result and the versions of an atomic save |
| SaveProtocol.CanRead | runner/AutoTest.Web/WorkspacePersistence.cs:24-37 | a new reader of a file that is there can read the last version as a whole |
| SaveProtocol.GateOpens | runner/AutoTest.Web/WorkspacePersistence.cs:11-21 | a waiting saver can enter exactly when no saver with the same gate is inside, however the others left |
| IntegrationHost.RuleState.Next | src/AutoTest.Integration.Http/HttpIntegrationHost.cs:193-203 | counts the call in 32 bits and answers with the rule's own response, the entry of its index, or the exception for a negative one |
| IntegrationHost.ServedExactly | src/AutoTest.Integration.Http/HttpIntegrationHost.cs:197-202 | exactly when the call after k others gets entry min(k, count - 1) |
| IntegrationHost.SequenceServedInOrder | src/AutoTest.Integration.Http/HttpIntegrationHost.cs:193-203 | over every interleaving, the k-th call to one rule object gets that entry exactly under that condition, and without a sequence always the rule's own response |
| IntegrationHost.EntriesServedOnce | src/AutoTest.Integration.Http/HttpIntegrationHost.cs:193-203 | up to 2^31 calls every entry but the last is served at most once, and none before its predecessors |
| IntegrationHost.RoutesExactly | src/AutoTest.Integration.Http/HttpIntegrationHost.cs:30-50 | a route leads to the rule configured last for its key |
| IntegrationHost.MatchLeads | src/AutoTest.Integration.Http/HttpIntegrationHost.cs:163 | a handler that matches a key gets that rule |
| IntegrationHost.ConfiguredAnew | src/AutoTest.Integration.Http/HttpIntegrationHost.cs:44-51 | a configured rule is a new object that nobody has called |
| IntegrationHost.CallsExactly | src/AutoTest.Integration.Http/HttpIntegrationHost.cs:193-203 | a rule object keeps its sequence and history, and a step adds the next answer exactly when it is a call to it |
| IntegrationHost.NumbersDistinct | src/AutoTest.Integration.Http/HttpIntegrationHost.cs:86 | two exchange numbers agree exactly when a multiple of 2^32 arrivals lies between them |
| IntegrationHost.QueueMoves | src/AutoTest.Integration.Http/HttpIntegrationHost.cs:155-156 | an answered handler joins the end, a dequeue takes the oldest, and a handler goes on exactly while the queue is too long |
| IntegrationHost.NobodyIsStuck | src/AutoTest.Integration.Http/HttpIntegrationHost.cs:61-158 | a `DELETE` can dequeue at any time, and every unfinished handler can take a step |
| IntegrationHost.QueueIsSuffix | src/AutoTest.Integration.Http/HttpIntegrationHost.cs:155-156 | the queue is a suffix of the enqueue order, too long by at most the handlers still trimming |
| IntegrationHost.QuietQueue | src/AutoTest.Integration.Http/HttpIntegrationHost.cs:155-156 | when all handlers are gone the queue holds at most its limit, and at least limit + 1 - n of the newest once anything was dropped |
| QueueBound.BoundIsReached | src/AutoTest.Integration.Http/HttpIntegrationHost.cs:155-156 | the lower bound is exact: for every limit and number of handlers some run ends on it |
| TypeGraph.AllProperties | runner/AutoTest.Generator/DraftSuiteBuilder.cs:190-191 | the recursion over one shared name set yields the properties of the walk and leaves its visited names |
| TypeGraph.Inherited | runner/AutoTest.Generator/DraftSuiteBuilder.cs:191 | so does its loop over the base types |
| TypeGraph.NameSet.Add | runner/AutoTest.Generator/DraftSuiteBuilder.cs:191 | adds a name ignoring case and says whether it was new |
| TypeGraph.OrderIsReachable | runner/AutoTest.Generator/DraftSuiteBuilder.cs:190-191 | on every table, cyclic or not, the walk yields exactly the reachable types, each once |
| TypeGraph.BaseComesFirst | runner/AutoTest.Generator/DraftSuiteBuilder.cs:191 | a base comes before the type that names it unless both lie on a cycle |
| TypeGraph.TopologicalExactly | runner/AutoTest.Generator/DraftSuiteBuilder.cs:191 | the order is topological exactly when no reachable type lies on a cycle |
| TypeGraph.AllPropertiesExactly | runner/AutoTest.Generator/DraftSuiteBuilder.cs:190-191 | a property is yielded exactly when a reachable type owns it |
| GenericTypes.GenericArguments | runner/AutoTest.Generator/ApiBuilderContractProjection.cs:110-131 | the index loop with its depth counter computes the trimmed segments between the outermost brackets |
| GenericTypes.SplitArguments | runner/AutoTest.Generator/ApiBuilderContractProjection.cs:115-129 | the loop itself, over any text |
| GenericTypes.ArgumentsRoundTrip | runner/AutoTest.Generator/DraftSuiteBuilder.cs:193 | of a printed type the arguments come back as printed and trimmed, and none of a nullable one |
| GenericTypes.ArgumentsExactly | runner/AutoTest.Generator/ApiBuilderContractProjection.cs:110-131 | with names as source code spells them they come back exactly |
| GenericTypes.PrintAllDepth | runner/AutoTest.Generator/ApiBuilderContractProjection.cs:119-128 | the depth counter never goes negative and ends at 0 |
| GenericTypes.TypeKeyExactly | runner/AutoTest.Generator/ApiBuilderContractProjection.cs:101-108 | the key is the last segment of the name and the true arity, nullable or not, whatever white space is around |
| GenericTypes.LastSegmentIs | runner/AutoTest.Generator/ApiBuilderContractProjection.cs:105-107 | any qualification is cut off |
| CellReferences.CellReference | src/AutoTest.ProjectAdapters.BeBooking/VerifyWorkbookParser.cs:149 | the loop prints the letters of the column and the row |
| CellReferences.ParseReference | src/AutoTest.Workbooks/OpenXmlWorkbookReader.cs:89-99 | the loop reads the column in 32 bits, and 0 for a row that is no integer |
| CellReferences.PrintThenParse | src/AutoTest.Workbooks/OpenXmlWorkbookReader.cs:89-99 | a printed reference reads back exactly when row and column are 32-bit integers |
| CellReferences.ParseThenPrint | src/AutoTest.ProjectAdapters.BeBooking/VerifyWorkbookParser.cs:149 | a canonical reference prints back, in upper case, exactly when it fits 32 bits |
| CellReferences.LettersExactly | src/AutoTest.ProjectAdapters.BeBooking/VerifyWorkbookParser.cs:149 | the letters of a column are `A` to `Z` with the last one last |
| CellReferences.ColumnRoundTrip | src/AutoTest.ProjectAdapters.BeBooking/VerifyWorkbookParser.cs:149 | bijective base 26: the letters of a column have the column's value |
| CellReferences.LettersRoundTrip | src/AutoTest.Workbooks/OpenXmlWorkbookReader.cs:93-97 | and the value of letters has those letters, in upper case |
| CellReferences.ReferencesDistinct | src/AutoTest.ProjectAdapters.BeBooking/VerifyWorkbookParser.cs:149 | different cells have different references |
| SheetNames.SafeSheetName | src/AutoTest.MessageScanner/MessageWorkbookWriter.cs:111-124 | terminates, and returns the clean name when it is free and otherwise the first free numbered candidate: 1 to 31 valid characters, new ignoring case |
| SheetNames.CleanExactly | src/AutoTest.MessageScanner/MessageWorkbookWriter.cs:113-130 | a clean name is what is left between outer quotes once the seven forbidden characters are dashes, cut at 31 characters, and `Other` where that is blank |
| SheetNames.CandidateExactly | src/AutoTest.MessageScanner/MessageWorkbookWriter.cs:119-120 | a numbered candidate is the name, or as much of it as 31 characters leave room for, a dash and the number |
| SheetNames.CandidatesDistinct | src/AutoTest.MessageScanner/MessageWorkbookWriter.cs:118-122 | candidates for different suffixes differ even after shortening and ignoring case |
| SheetNames.SuffixBounded | src/AutoTest.MessageScanner/MessageWorkbookWriter.cs:117-122 | so many taken candidates need as many used names |
| SheetNames.SheetList | src/AutoTest.MessageScanner/MessageWorkbookWriter.cs:16-25 | over the whole module loop the names are pairwise distinct ignoring case, beginning with "Messages", each chosen against the ones before |
| RowReader.ParseDay | src/AutoTest.ProjectAdapters.BeBooking/VerifyWorkbookParser.cs:64-96 | the loop over mutable campaigns and groups builds the models of the folded rows |
| RowReader.ReadInto | src/AutoTest.ProjectAdapters.BeBooking/VerifyWorkbookParser.cs:68-94 | one row: a header begins a campaign, a frame goes to the last one, nothing else is touched |
| RowReader.MutableCampaign.Add | src/AutoTest.ProjectAdapters.BeBooking/VerifyWorkbookParser.cs:79-93 | one frame row in the current campaign: groups, frames, allocations, failure mark |
| RowReader.MutableCampaign.OpenGroup | src/AutoTest.ProjectAdapters.BeBooking/VerifyWorkbookParser.cs:82-84 | when a new group is opened, and with which figures |
| RowReader.MutableGroup.Fill | src/AutoTest.ProjectAdapters.BeBooking/VerifyWorkbookParser.cs:85-91 | one frame in the last group; a missing maximum is filled in |
| RowReader.MutableCampaign.Close | src/AutoTest.ProjectAdapters.BeBooking/VerifyWorkbookParser.cs:125-142 | the model of a campaign; the requested figure falls back to the allocations |
| RowFolding.RowsAreSectioned | src/AutoTest.ProjectAdapters.BeBooking/VerifyWorkbookParser.cs:64-96 | one campaign per header row, with its name and kind and exactly the frames of its own rows in row order |
| RowMeaning.RowExactly | src/AutoTest.ProjectAdapters.BeBooking/VerifyWorkbookParser.cs:68-94 | cell by cell: when a row begins a campaign, and what a row with a label does to labels, allocations, groups, maxima and the failure mark of the last campaign |
| RowMeaning.ClockExactly | src/AutoTest.ProjectAdapters.BeBooking/VerifyWorkbookParser.cs:121-123 | a label begins with one or two digits, a colon and two digits |
| RowMeaning.ModelExactly | src/AutoTest.ProjectAdapters.BeBooking/VerifyWorkbookParser.cs:133 | the requested figure is the sum over the groups, and the sum of the allocations where that is 0 |
| RowFolding.FramesConserved | src/AutoTest.ProjectAdapters.BeBooking/VerifyWorkbookParser.cs:68-94 | the campaigns' frames, one after the other, are the frames of all rows from the first header on |
| RowFolding.GroupsSplitFrames | src/AutoTest.ProjectAdapters.BeBooking/VerifyWorkbookParser.cs:82-87 | a campaign's groups are non-empty contiguous runs whose concatenation is its frame list |
| RowFolding.AllocationsAddUp | src/AutoTest.ProjectAdapters.BeBooking/VerifyWorkbookParser.cs:88-92 | with distinct labels the campaign's allocations are its groups' allocations, entry by entry and in total |
| CampaignMerge.Merge | src/AutoTest.ProjectAdapters.BeBooking/VerifyWorkbookParser.cs:46-62 | the loop, with object identity for the candidates and record equality for `IndexOf` |
| CampaignMerge.MergeGroups | src/AutoTest.ProjectAdapters.BeBooking/VerifyWorkbookParser.cs:46-62 | the merged list is the grouping by key of both days, less the second candidate exactly when it is skipped |
| CampaignMerge.RivalIsFirst | src/AutoTest.ProjectAdapters.BeBooking/VerifyWorkbookParser.cs:51-54 | a candidate meets the other one exactly when that one is still the object it was, and of the same kind |
| CampaignMerge.MergeConserves | src/AutoTest.ProjectAdapters.BeBooking/VerifyWorkbookParser.cs:46-62 | one campaign per trimmed name and kind ignoring case; every daily schedule exactly once, except the skipped candidate's |
| CampaignMerge.KeyExactly | src/AutoTest.ProjectAdapters.BeBooking/VerifyWorkbookParser.cs:55 | campaigns meet when their trimmed names and their kinds agree ignoring case |
| CampaignMerge.MergeKeepsOrder | src/AutoTest.ProjectAdapters.BeBooking/VerifyWorkbookParser.cs:55-59 | each merged campaign holds the schedules of its key in their order |
| VerifySuite.Build | src/AutoTest.ProjectAdapters.BeBooking/VerifyTestcaseBuilder.cs:14-29 | builds the suite exactly when there is a target with a schedule and all labels can be read |
| VerifySuite.FixtureStep | src/AutoTest.ProjectAdapters.BeBooking/VerifyTestcaseBuilder.cs:56-72 | the fixture saves the five fixed names and one name per frame |
| VerifySuite.BuildSchedule | src/AutoTest.ProjectAdapters.BeBooking/VerifyTestcaseBuilder.cs:125-134 | the schedule's node, frame by frame |
| VerifySuite.SuiteIsClosed | src/AutoTest.ProjectAdapters.BeBooking/VerifyTestcaseBuilder.cs:14-29 | after the fixture every variable in every step is one the fixture saved, the case's own, or `unique` |
| SuiteMeaning.SuiteExactly | src/AutoTest.ProjectAdapters.BeBooking/VerifyTestcaseBuilder.cs:14-165 | read member by member: the fixture with one variable per frame number, one campaign per background step, the verification of the target day, its creation exactly when valid, the look into the database |
| SuiteMeaning.FrameExactly | src/AutoTest.ProjectAdapters.BeBooking/VerifyTestcaseBuilder.cs:136-145 | a frame has the variable of its own 8 minutes, its allocation, and in a Duration campaign the key of and its place in the first group with its label |
| SuiteMeaning.ClockReads | src/AutoTest.ProjectAdapters.BeBooking/VerifyTestcaseBuilder.cs:197-203 | hours and two digits of minutes, whatever follows |
| SuiteMeaning.CountExactly | src/AutoTest.ProjectAdapters.BeBooking/VerifyTestcaseBuilder.cs:18-19 | frame numbers run from 1, which the earliest label has, to the count, which some label has |
| VerifySuite.FrameVariablesExactly | src/AutoTest.ProjectAdapters.BeBooking/VerifyTestcaseBuilder.cs:70 | the frame variables among them are exactly `tf1` to `tf<count>` |
| VerifySuite.FrameRefersTo | src/AutoTest.ProjectAdapters.BeBooking/VerifyTestcaseBuilder.cs:136-145 | each frame refers to the saved variable of its own 8 minutes |
| VerifySuite.NumbersFollowTime | src/AutoTest.ProjectAdapters.BeBooking/VerifyTestcaseBuilder.cs:195-203 | frame numbers follow the clock; two labels share one exactly within the same 8 minutes |
| VerifySuite.GridNumbers | src/AutoTest.ProjectAdapters.BeBooking/VerifyTestcaseBuilder.cs:195-203 | on an 8-minute grid frame numbers order and tell apart exactly what the clock does |
| LoadDiagnostics.PercentileExactly | src/AutoTest.LoadTesting/LoadDiagnostics.cs:10-14 | for a share above 0 the percentile is there exactly when the share is at most 1, and it is the one value of the list with at least that share of the values at most it and less than that share below it |
| LoadDiagnostics.LeastPercentile | src/AutoTest.LoadTesting/LoadDiagnostics.cs:10-14 | a share of 0 or less gives the least value, and no values give 0 |
| LoadDiagnostics.SortKeeps | src/AutoTest.LoadTesting/LoadDiagnostics.cs:12 | ordering keeps the values and how many lie below any bound |

## Left out

- Names and texts ignoring case: folding covers the ASCII letters; `OrdinalIgnoreCase` also folds others.
- CellReferences.ParseReference: only ASCII letters count as column letters; the reader accepts every Unicode letter.
- Editor.ApiBuilderPage.SaveVariable: outside ASCII every character passes as a letter; the page and the server use slightly different Unicode classes. Where the sorted list puts the new variable is an input.
- Steps.HexValue: an escaped surrogate half reads as the replacement character, and an escaped character above U+FFFF as two of them.
- Compiler.CompileStep: the compiled suite is written with line breaks and indentation; the body's raw text is modelled without that white space, none of which can be part of a placeholder.
- CompilerSafety.LiteralIsEnough: it is a sufficient condition only (literals and routes mention built-in variables, field names hold no braces, no text put into a route contains a later field's placeholder or ends in `$`); the exact one is `CompilerSafety.CompilationPreservesDeclaredness`. Stale `${name}` text that the editor leaves in a value after a removal counts as typed by hand.
- Validator.ValidateSteps: database, search, message, cache and stub transports, the executor count and the coverage rules are not modelled; every request is an HTTP request.
- Runner.ExecuteStep: how a text reads as a decimal number, which values match a pattern, fit a 64-bit integer or lie within bounds, and whether a string is written as a listed constant, are inputs; the report, timing and redaction are not modelled.
- RunnerMeaning.PrepareExactly: three failures inside the library are left out, none of which misses a variable: a blank name of a form or multipart field, a malformed content type of a file, and a token or scheme that is no header value.
- Schemas.ValidateExactly: schemas are well-formed; a keyword with a value of the wrong kind, such as a number for `type`, throws in the source.
- Refusals.NeverRefusedExactly: with an unknown type name somewhere, whether any response leads there depends on whether all that is asked before it can be met; `PreflightShape.RefusedExactly` says it for each run.
- Runner.Run: cancellation, the retry clock (any number of polls) and the report's list of results.
- Runner.BaseName: file paths are cut at `/`, as on Linux; on Windows `\` and `:` separate too.
- Chain.RunInChain: the token that the engine keeps from one case to the next counts among the login results, which are inputs.
- Preflight.PreflightSound: missing environment values, the texts of case variables themselves and login templates of the project are not claimed by the check.
- Workspaces.AcceptedBinding: project, owner, id and revision metadata of a workspace are not checked here.
- SaveProtocol.RevisionsAreConsecutive: revisions are unbounded; the source would wrap after 2^31 - 1 commits. Deleting expired workspaces at start-up, crashes between two steps and other programs writing the same files are left out.
- IntegrationHost.RoutesExactly: a key is a method and a path in lower case, as the dictionary of rules takes them.
- IntegrationHost.QuietQueue: matching a rule against a body, rendering a template, delays and artifacts are not modelled; a handler may stop between any two of its steps before it enqueues.
- TypeGraph.AllProperties: the source yields lazily; a consumer that stops early sees a prefix of this list.
- GenericTypes.GenericArguments: substitution of type parameters by their arguments is not modelled.
- RowReader.ParseDay: how a cell's text reads as a number is an input; sums are unbounded integers, where the source throws on overflow. Finding the rows of a case and judging its validity are left out.
- CampaignMerge.Merge: schedules are compared as values; the records of the source compare their lists by reference, which finds the same index.
- VerifySuite.Build: minutes are unbounded integers; the SQL text of the fixture, the expectations of the steps and the coverage section; the hash that names a group is an input without dollar signs, and so is the case number in the closedness theorem.
- SheetNames.SheetList: the order of the modules is an input, and the audit sheet is added without this naming.
- LoadDiagnostics.Percentile: durations and shares are real numbers; the source multiplies and rounds in binary floating point.
- Sanitising, rendering, archives and the rest of the user interface.
