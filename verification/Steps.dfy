/** The testcase language: what a case file says, before anything runs. */
module Steps {
  import opened Optional
  import opened Text

  type Pairs = seq<(string, string)>

  function SecondsOf(pairs: Pairs): (r: seq<string>)
    ensures |r| == |pairs| && forall i :: 0 <= i < |r| ==> r[i] == pairs[i].1
  {
    seq(|pairs|, i requires 0 <= i < |pairs| => pairs[i].1)
  }

  function FirstKeys(pairs: Pairs): set<string> { set p | p in pairs :: Fold(p.0) }

  /** An expected value: a JSON constant with the text it has in the file, or plain text that the
      executor itself supplies. */
  datatype Operand = Constant(raw: string) | Plain(text: string)

  /** `JsonElement.GetString` on the inside of a JSON string. */
  function Unescape(s: string): string {
    if s == "" then ""
    else if s[0] != '\\' || |s| == 1 then [s[0]] + Unescape(s[1..])
    else if s[1] == 'u' && |s| >= 6 && IsHex(s[2]) && IsHex(s[3]) && IsHex(s[4]) && IsHex(s[5]) then
      [CodeUnit(HexValue(s[2]), HexValue(s[3]), HexValue(s[4]), HexValue(s[5]))] + Unescape(s[6..])
    else [ControlEscape(s[1])] + Unescape(s[2..])
  }

  predicate IsHex(c: char) { IsDigit(c) || 'a' <= c <= 'f' || 'A' <= c <= 'F' }

  function HexValue(c: char): (v: nat)
    requires IsHex(c)
    ensures v < 16
  {
    if IsDigit(c) then DigitValue(c) else if c >= 'a' then c as int - 'a' as int + 10 else c as int - 'A' as int + 10
  }

  /** Surrogate halves have no character of their own here; they read as the replacement character. */
  function CodeUnit(a: nat, b: nat, c: nat, d: nat): char
    requires a < 16 && b < 16 && c < 16 && d < 16
  {
    var code := 4096 * a + 256 * b + 16 * c + d;
    if 0xD800 <= code < 0xE000 then '\U{FFFD}' else code as char
  }

  function ControlEscape(c: char): char {
    match c
    case 'n' => '\n'
    case 'r' => '\r'
    case 't' => '\t'
    case 'b' => '\U{0008}'
    case 'f' => '\U{000C}'
    case _ => c
  }

  /** `JsonPath.Text` of a constant: strings are decoded, everything else keeps its own text. */
  function Decode(raw: string): string {
    if |raw| >= 2 && raw[0] == '"' && raw[|raw| - 1] == '"' then Unescape(raw[1..|raw| - 1]) else raw
  }

  function OperandText(operand: Operand): string {
    match operand case Constant(raw) => Decode(raw) case Plain(text) => text
  }

  datatype Assertion = Assertion(
    expected: Option<Operand>, notEquals: Option<Operand>, exists_: Option<bool>, typeName: Option<string>,
    contains: Option<string>, matches: Option<string>, bounded: bool, count: Option<int>, oneOf: seq<Operand>)

  datatype ErrorExpectation = ErrorExpectation(code: string, locale: Option<string>)

  /** A JSON schema, by the keywords that are looked at; listed values are the texts of JSON constants. */
  datatype Schema = Schema(
    type_: Option<string>, required: seq<string>, properties: seq<(string, Schema)>, items: Option<Schema>,
    minItems: Option<int>, listed: Option<seq<string>>)

  datatype ExpectSpec = ExpectSpec(
    status: Option<int>, statusOneOf: Option<seq<int>>, maxResponseTimeMs: Option<int>,
    json: seq<(string, Assertion)>, jsonSchema: Option<Schema>, error: Option<ErrorExpectation>)

  datatype MultipartFile = MultipartFile(field: string, path: string, fileName: Option<string>)

  datatype Multipart = Multipart(fields: Pairs, files: seq<MultipartFile>)

  /** An HTTP request; `body` is the raw text of the JSON body. */
  datatype RequestSpec = RequestSpec(
    method_: Option<string>, path: Option<string>, body: Option<string>, form: Option<Pairs>, headers: Pairs,
    rawBody: Option<string>, multipart: Option<Multipart>)

  datatype ConcurrentRequest = ConcurrentRequest(
    name: string, auth: Option<string>, authToken: Option<string>, request: Option<RequestSpec>, expect_: Option<ExpectSpec>)

  datatype StepSpec = StepSpec(
    name: string, auth: Option<string>, authToken: Option<string>, request: Option<RequestSpec>,
    expect_: Option<ExpectSpec>, save: Option<Pairs>, retry: bool, parallelRequests: Option<int>,
    concurrentRequests: Option<seq<ConcurrentRequest>>)

  predicate Concurrent(step: StepSpec) { step.concurrentRequests.Some? && step.concurrentRequests.value != [] }

  function Child(request: ConcurrentRequest): StepSpec {
    StepSpec(request.name, request.auth, request.authToken, request.request, request.expect_, None, false, None, None)
  }

  function SaveOf(step: StepSpec): Pairs { if step.save.Some? then step.save.value else [] }

  function JsonOf(step: StepSpec): seq<(string, Assertion)> {
    if step.expect_.Some? then step.expect_.value.json else []
  }

  datatype CatalogueEntry = CatalogueEntry(httpStatus: int, vietnamese: string, english: string)

  type Catalogue = map<string, CatalogueEntry>

  datatype CaseSpec = CaseSpec(id: string, destructive: bool, variables: Pairs, steps: seq<StepSpec>)

  /** The variables every case starts with: the run's own values and 32 fresh identifiers. */
  function BuiltIns(): set<string> {
    (set n | n in BuiltInNames() :: Fold(n)) + (set i: nat | 1 <= i <= 32 :: Fold("guid" + Decimal(i)))
  }

  function BuiltInNames(): seq<string> {
    [ "unique", "shortUniqueA", "shortUniqueB", "shortUniqueC", "timestamp", "timestampMs", "nowIso", "pastStartIso",
      "futureStartIso", "futureEndIso", "futureDay1Iso", "futureDay4Iso", "futureDay5Iso", "futureDay6Iso",
      "futureDay8Iso", "futureDay9Iso", "futureDay10Iso", "futureDay15Iso" ]
  }
}
