/** From a VERIFY case to a suite: a fixture step that saves one variable per time frame, and the steps that use them.

    `guid` stands for the hash that names a group of frames. */
module VerifySuite {
  import opened Int32
  import opened Optional
  import opened Text
  import opened VerifyModels
  import D = Dictionaries
  import T = Templates

  datatype Model = Model(id: string, title: string, campaigns: seq<Campaign>, isValid: bool, direction: string)

  /** The JSON of a request body. */
  datatype Node =
    | Str(text: string) | Num(value: int) | Arr(items: seq<Node>) | Obj(members: seq<(string, Node)>)

  type Guid = (string, nat) -> string

  /** `parameters` are those of a database command, `save` what the step keeps. */
  datatype SuiteStep = SuiteStep(name: string, body: Option<Node>, parameters: seq<(string, string)>, save: seq<(string, string)>)

  // ---- time frames ----

  /** Hours and minutes at the start of a label; `None` is an exception. */
  function FrameMinutes(frame: string): Option<int> {
    var values := Split(frame, ':');
    if |values| < 2 || |values[1]| < 2 then None
    else
      var hour, minute := ParseInt(values[0]), ParseInt(values[1][..2]);
      if hour.None? || minute.None? then None else Some(hour.value * 60 + minute.value)
  }

  function ScheduleLabels(schedules: seq<Schedule>): (r: seq<string>)
    ensures forall s :: s in schedules ==> forall l :: l in s.frames ==> l in r
  {
    if schedules == [] then [] else schedules[0].frames + ScheduleLabels(schedules[1..])
  }

  function Labels(campaigns: seq<Campaign>): (r: seq<string>)
    ensures forall c :: c in campaigns ==> forall l :: l in ScheduleLabels(c.schedules) ==> l in r
  {
    if campaigns == [] then [] else ScheduleLabels(campaigns[0].schedules) + Labels(campaigns[1..])
  }

  predicate Readable(labels: seq<string>) { forall l :: l in labels ==> FrameMinutes(l).Some? }

  function Minute(frame: string): int
    requires FrameMinutes(frame).Some?
  {
    FrameMinutes(frame).value
  }

  function Min(values: seq<int>): (m: int)
    requires values != []
    ensures m in values && forall v :: v in values ==> m <= v
  {
    if |values| == 1 then values[0]
    else
      var rest := Min(values[1..]);
      assert forall v :: v in values <==> v == values[0] || v in values[1..];
      if values[0] < rest then values[0] else rest
  }

  function Max(values: seq<int>): (m: int)
    requires values != []
    ensures m in values && forall v :: v in values ==> v <= m
  {
    if |values| == 1 then values[0]
    else
      var rest := Max(values[1..]);
      assert forall v :: v in values <==> v == values[0] || v in values[1..];
      if values[0] > rest then values[0] else rest
  }

  function Minutes(labels: seq<string>): (r: seq<int>)
    requires Readable(labels)
    ensures |r| == |labels| && forall i :: 0 <= i < |r| ==> r[i] == Minute(labels[i])
  {
    seq(|labels|, i requires 0 <= i < |labels| => Minute(labels[i]))
  }

  function Earliest(labels: seq<string>): int
    requires labels != [] && Readable(labels)
  {
    Min(Minutes(labels))
  }

  function Offset(frame: string, first: int): int
    requires FrameMinutes(frame).Some?
  {
    (Minute(frame) - first) / 8
  }

  function Offsets(labels: seq<string>, first: int): (r: seq<int>)
    requires Readable(labels)
    ensures |r| == |labels| && forall i :: 0 <= i < |r| ==> r[i] == Offset(labels[i], first)
  {
    seq(|labels|, i requires 0 <= i < |labels| => Offset(labels[i], first))
  }

  /** One variable per 8 minutes from the first frame to the last. */
  function FrameCount(labels: seq<string>): int
    requires labels != [] && Readable(labels)
  {
    Max(Offsets(labels, Earliest(labels))) + 1
  }

  lemma EarliestIsFirst(labels: seq<string>)
    requires labels != [] && Readable(labels)
    ensures forall l :: l in labels ==> Earliest(labels) <= Minute(l)
    ensures exists l :: l in labels && Earliest(labels) == Minute(l)
  {
    hide FrameMinutes;
    var minutes := Minutes(labels);
    forall l | l in labels ensures Earliest(labels) <= Minute(l) {
      var i :| 0 <= i < |labels| && labels[i] == l;
      assert minutes[i] in minutes;
    }
    var i :| 0 <= i < |minutes| && minutes[i] == Min(minutes);
    assert labels[i] in labels;
  }

  lemma CountCovers(labels: seq<string>)
    requires labels != [] && Readable(labels)
    ensures FrameCount(labels) >= 1
    ensures forall l :: l in labels ==> 0 <= Offset(l, Earliest(labels)) < FrameCount(labels)
  {
    hide FrameMinutes, Earliest;
    EarliestIsFirst(labels);
    var offsets := Offsets(labels, Earliest(labels));
    forall l | l in labels ensures 0 <= Offset(l, Earliest(labels)) <= Max(offsets) {
      var i :| 0 <= i < |labels| && labels[i] == l;
      assert offsets[i] in offsets;
    }
    assert labels[0] in labels;
  }

  /** The number of a label's time frame, counted from 1. */
  function FrameNumber(labels: seq<string>, frame: string): int
    requires Readable(labels) && frame in labels
  {
    Offset(frame, Earliest(labels)) + 1
  }

  /** Later labels never have smaller numbers, and two labels share a number exactly when they fall into the
      same 8 minutes from the first frame on. */
  lemma NumbersFollowTime(labels: seq<string>, a: string, b: string)
    requires Readable(labels) && a in labels && b in labels
    ensures Minute(a) <= Minute(b) ==> FrameNumber(labels, a) <= FrameNumber(labels, b)
    ensures FrameNumber(labels, a) == FrameNumber(labels, b) <==>
              exists cell: int :: 8 * cell <= Minute(a) - Earliest(labels) < 8 * cell + 8
                               && 8 * cell <= Minute(b) - Earliest(labels) < 8 * cell + 8
  {
    hide FrameMinutes, Earliest, FrameCount;
    var x, y := Minute(a) - Earliest(labels), Minute(b) - Earliest(labels);
    assert x == 8 * (x / 8) + x % 8 && y == 8 * (y / 8) + y % 8;
    if x / 8 == y / 8 {
      assert 8 * (x / 8) <= x < 8 * (x / 8) + 8 && 8 * (x / 8) <= y < 8 * (x / 8) + 8;
    }
  }

  /** Labels on an 8-minute grid. */
  predicate OnGrid(labels: seq<string>)
    requires Readable(labels)
  {
    forall a, b :: a in labels && b in labels ==> (Minute(a) - Minute(b)) % 8 == 0
  }

  /** On such a grid the numbers order and tell apart exactly what the clock does. */
  lemma GridNumbers(labels: seq<string>, a: string, b: string)
    requires Readable(labels) && OnGrid(labels) && a in labels && b in labels
    ensures FrameNumber(labels, a) < FrameNumber(labels, b) <==> Minute(a) < Minute(b)
    ensures FrameNumber(labels, a) == FrameNumber(labels, b) <==> Minute(a) == Minute(b)
  {
    hide FrameMinutes, Earliest, FrameCount;
    EarliestIsFirst(labels);
    var first := Earliest(labels);
    var l :| l in labels && first == Minute(l);
    assert (Minute(a) - Minute(l)) % 8 == 0 && (Minute(b) - Minute(l)) % 8 == 0;
  }

  // ---- the fixture ----

  function TfName(k: nat): string { "tf" + Decimal(k) }

  function Row0(column: string): string { "$.rows.0." + column }

  function FixedNames(): seq<string> { ["scheduleDate", "scheduleDate2", "deviceId", "creativeId", "fieldId"] }

  function FixedSaves(): seq<(string, string)> {
    [("scheduleDate", Row0("scheduleDate")), ("scheduleDate2", Row0("scheduleDate2")), ("deviceId", Row0("deviceId")),
     ("creativeId", Row0("creativeId")), ("fieldId", Row0("fieldId"))]
  }

  function FrameSaves(count: nat): seq<(string, string)> {
    if count == 0 then [] else FrameSaves(count - 1) + [(TfName(count), Row0(TfName(count)))]
  }

  function Fixture(count: nat): SuiteStep {
    SuiteStep("Chọn fixture động theo thời điểm chạy", None, [], FixedSaves() + FrameSaves(count))
  }

  method FixtureStep(count: nat) returns (step: SuiteStep)
    ensures step == Fixture(count)
  {
    var save := FixedSaves();
    for index := 1 to count + 1
      invariant save == FixedSaves() + FrameSaves(index - 1)
    {
      save := save + [(TfName(index), Row0(TfName(index)))];
    }
    step := SuiteStep("Chọn fixture động theo thời điểm chạy", None, [], save);
  }

  // ---- schedules ----

  function Allocation(entries: seq<(string, int)>, frame: string): int {
    var found := D.Lookup(entries, frame, Fold);
    if found.Some? then found.value else 0
  }

  predicate Holds(group: Group, frame: string) { exists f :: f in group.frames && Fold(f) == Fold(frame) }

  function FirstTrue(flags: seq<bool>): (i: nat)
    ensures i <= |flags| && (i < |flags| ==> flags[i]) && forall j :: 0 <= j < i ==> !flags[j]
  {
    if flags == [] || flags[0] then 0
    else
      var i := FirstTrue(flags[1..]);
      assert forall j :: 1 <= j < |flags| ==> flags[j] == flags[1..][j - 1];
      i + 1
  }

  function Holding(groups: seq<Group>, frame: string): (r: seq<bool>)
    ensures |r| == |groups| && forall i :: 0 <= i < |r| ==> r[i] == Holds(groups[i], frame)
  {
    seq(|groups|, i requires 0 <= i < |groups| => Holds(groups[i], frame))
  }

  /** The first group that holds the label, ignoring case. */
  function GroupIndex(groups: seq<Group>, frame: string): (i: nat)
    ensures i <= |groups| && (i < |groups| ==> Holds(groups[i], frame))
    ensures forall j :: 0 <= j < i ==> !Holds(groups[j], frame)
  {
    FirstTrue(Holding(groups, frame))
  }

  /** `IndexOf`: by exact text, -1 when there is none. */
  function Position(frames: seq<string>, frame: string): (i: int)
    ensures -1 <= i < |frames| && (i >= 0 ==> frames[i] == frame) && (i == -1 ==> frame !in frames)
  {
    if frames == [] then -1
    else if frames[0] == frame then 0
    else
      var i := Position(frames[1..], frame);
      if i == -1 then -1 else i + 1
  }

  function FrameMembers(schedule: Schedule, frame: string, first: int): seq<(string, Node)>
    requires FrameMinutes(frame).Some? && Offset(frame, first) >= 0
  {
    [("timeFrameId", Str(T.Placeholder(TfName(Offset(frame, first) + 1)))), ("spotCount", Num(Allocation(schedule.perFrame, frame)))]
  }

  function GroupMembers(group: Group, frame: string, key: string): seq<(string, Node)> {
    [("timeFrameGroupKey", Str(key)), ("timeFrameGroupOrder", Num(Position(group.frames, frame) + 1))]
  }

  function FrameNode(c: Campaign, schedule: Schedule, frame: string, seed: string, first: int, guid: Guid): Node
    requires FrameMinutes(frame).Some? && Offset(frame, first) >= 0
  {
    var g := GroupIndex(schedule.groups, frame);
    Obj(FrameMembers(schedule, frame, first)
        + if Fold(c.kind) != "duration" || g == |schedule.groups| then []
          else GroupMembers(schedule.groups[g], frame, guid(seed, g + 1)))
  }

  predicate FramesFit(frames: seq<string>, first: int) {
    Readable(frames) && forall f :: f in frames ==> Offset(f, first) >= 0
  }

  function FrameNodes(c: Campaign, schedule: Schedule, frames: seq<string>, seed: string, first: int, guid: Guid): (r: seq<Node>)
    requires FramesFit(frames, first)
    ensures |r| == |frames| && forall i :: 0 <= i < |r| ==> r[i] == FrameNode(c, schedule, frames[i], seed, first, guid)
  {
    seq(|frames|, i requires 0 <= i < |frames| => FrameNode(c, schedule, frames[i], seed, first, guid))
  }

  function ScheduleNode(c: Campaign, schedule: Schedule, seed: string, first: int, guid: Guid): Node
    requires FramesFit(schedule.frames, first)
  {
    Obj([("date", Str(if schedule.dateKey == "day1" then T.Placeholder("scheduleDate") else T.Placeholder("scheduleDate2"))),
         ("devices", Arr([Obj([("deviceId", Str(T.Placeholder("deviceId"))),
                               ("timeFrames", Arr(FrameNodes(c, schedule, schedule.frames, seed, first, guid)))])]))])
  }

  method BuildSchedule(c: Campaign, schedule: Schedule, seed: string, first: int, guid: Guid) returns (node: Node)
    requires FramesFit(schedule.frames, first)
    ensures node == ScheduleNode(c, schedule, seed, first, guid)
  {
    hide FrameNode;
    var frames: seq<Node> := [];
    for i := 0 to |schedule.frames|
      invariant frames == FrameNodes(c, schedule, schedule.frames, seed, first, guid)[..i]
    {
      assert schedule.frames[i] in schedule.frames;
      frames := frames + [FrameNode(c, schedule, schedule.frames[i], seed, first, guid)];
    }
    assert frames == FrameNodes(c, schedule, schedule.frames, seed, first, guid);
    node := Obj([("date", Str(if schedule.dateKey == "day1" then T.Placeholder("scheduleDate") else T.Placeholder("scheduleDate2"))),
                 ("devices", Arr([Obj([("deviceId", Str(T.Placeholder("deviceId"))), ("timeFrames", Arr(frames))])]))]);
  }

  predicate SchedulesFit(schedules: seq<Schedule>, first: int) {
    forall s :: s in schedules ==> FramesFit(s.frames, first)
  }

  function ScheduleNodes(c: Campaign, schedules: seq<Schedule>, seed: string, first: int, guid: Guid): (r: seq<Node>)
    requires SchedulesFit(schedules, first)
    ensures |r| == |schedules| && forall i :: 0 <= i < |r| ==> r[i] == ScheduleNode(c, schedules[i], seed, first, guid)
  {
    seq(|schedules|, i requires 0 <= i < |schedules| => ScheduleNode(c, schedules[i], seed, first, guid))
  }

  function TypeNumber(c: Campaign): Node { Num(if Fold(c.kind) == "spot" then 1 else 2) }

  // ---- steps ----

  function CreateStep(c: Campaign, index: nat, number: string, first: int, candidate: bool, guid: Guid): SuiteStep
    requires SchedulesFit(c.schedules, first)
  {
    SuiteStep((if candidate then "Tạo campaign đích " else "Tạo campaign nền ") + c.name,
      Some(Obj([
        ("name", Str(if candidate then T.Placeholder("candidateName")
                     else "QC-VERIFY-" + number + "-BASE-" + Decimal(index) + "-" + T.Placeholder("unique"))),
        ("customerName", Str("QC workbook " + number)), ("sourceType", Num(1)), ("type", TypeNumber(c)),
        ("creativeId", Str(T.Placeholder("creativeId"))), ("fieldId", Str(T.Placeholder("fieldId"))),
        ("runStart", Str(T.Placeholder("scheduleDate"))), ("runEnd", Str(T.Placeholder("scheduleDate2"))),
        ("schedules", Arr(ScheduleNodes(c, c.schedules, number + "-" + Decimal(index), first, guid)))])),
      [], [])
  }

  function DateIndex(schedules: seq<Schedule>, dateKey: string): (i: nat)
    ensures i <= |schedules| && (i < |schedules| ==> schedules[i].dateKey == dateKey)
  {
    if schedules == [] || schedules[0].dateKey == dateKey then 0 else DateIndex(schedules[1..], dateKey) + 1
  }

  /** The schedule of that day, and the last one when there is none. */
  function TargetSchedule(schedules: seq<Schedule>, dateKey: string): (s: Schedule)
    requires schedules != []
    ensures s in schedules
  {
    var i := DateIndex(schedules, dateKey);
    if i < |schedules| then schedules[i] else schedules[|schedules| - 1]
  }

  function VerifyStep(c: Campaign, dateKey: string, name: string, first: int, guid: Guid): SuiteStep
    requires SchedulesFit(c.schedules, first) && c.schedules != []
  {
    SuiteStep(name,
      Some(Obj([("type", TypeNumber(c)),
                ("schedules", Arr([ScheduleNode(c, TargetSchedule(c.schedules, dateKey), "verify", first, guid)]))])),
      [], [])
  }

  function EvidenceStep(name: string): SuiteStep { SuiteStep(name, None, [("name", T.Placeholder("candidateName"))], []) }

  function BaseSteps(campaigns: seq<Campaign>, number: string, first: int, guid: Guid): (r: seq<SuiteStep>)
    requires forall c :: c in campaigns ==> SchedulesFit(c.schedules, first)
    ensures |r| == |campaigns| && forall i :: 0 <= i < |r| ==> r[i] == CreateStep(campaigns[i], i + 1, number, first, false, guid)
  {
    seq(|campaigns|, i requires 0 <= i < |campaigns| => CreateStep(campaigns[i], i + 1, number, first, false, guid))
  }

  function NumberOf(model: Model): string { var parts := Split(model.id, '/'); parts[|parts| - 1] }

  function VerifyName(valid: bool): string {
    if valid then "Verify campaign đích đúng expectation workbook"
    else "Verify campaign đích bị từ chối đúng expectation workbook"
  }

  function EvidenceName(valid: bool): string {
    if valid then "Xác nhận campaign đích được lưu sau Verify hợp lệ"
    else "Xác nhận Verify bị từ chối không lưu Campaign một phần"
  }

  /** Nothing throws: there is a target with a schedule, there is a label, and every label can be read. */
  predicate Buildable(model: Model) {
    model.campaigns != [] && model.campaigns[|model.campaigns| - 1].schedules != []
    && Labels(model.campaigns) != [] && Readable(Labels(model.campaigns))
  }

  lemma CampaignFits(campaigns: seq<Campaign>, c: Campaign)
    requires Labels(campaigns) != [] && Readable(Labels(campaigns)) && c in campaigns
    ensures SchedulesFit(c.schedules, Earliest(Labels(campaigns)))
  {
    hide FrameMinutes, Earliest, FrameCount, Offset;
    var first := Earliest(Labels(campaigns));
    CountCovers(Labels(campaigns));
    forall s, f | s in c.schedules && f in s.frames ensures FrameMinutes(f).Some? && Offset(f, first) >= 0 {
      assert f in ScheduleLabels(c.schedules);
      assert f in Labels(campaigns);
    }
  }

  lemma AllFit(campaigns: seq<Campaign>)
    requires Labels(campaigns) != [] && Readable(Labels(campaigns))
    ensures forall c :: c in campaigns ==> SchedulesFit(c.schedules, Earliest(Labels(campaigns)))
  {
    hide *;
    forall c | c in campaigns ensures SchedulesFit(c.schedules, Earliest(Labels(campaigns))) { CampaignFits(campaigns, c); }
  }

  function TargetDay(model: Model): string { if model.direction == "day2-to-day1" then "day1" else "day2" }

  /** The steps after the fixture. */
  function Later(model: Model, guid: Guid): seq<SuiteStep>
    requires Buildable(model)
  {
    AllFit(model.campaigns);
    var first, n := Earliest(Labels(model.campaigns)), |model.campaigns| - 1;
    var target := model.campaigns[n];
    BaseSteps(model.campaigns[..n], NumberOf(model), first, guid)
    + [VerifyStep(target, TargetDay(model), VerifyName(model.isValid), first, guid)]
    + (if model.isValid then [CreateStep(target, n + 1, NumberOf(model), first, true, guid)] else [])
    + [EvidenceStep(EvidenceName(model.isValid))]
  }

  function Suite(model: Model, guid: Guid): seq<SuiteStep>
    requires Buildable(model)
  {
    CountCovers(Labels(model.campaigns));
    [Fixture(FrameCount(Labels(model.campaigns)))] + Later(model, guid)
  }

  method Build(model: Model, guid: Guid) returns (steps: Option<seq<SuiteStep>>)
    ensures steps.Some? <==> Buildable(model)
    ensures steps.Some? ==> steps.value == Suite(model, guid)
  {
    hide FrameMinutes, Labels, Earliest, FrameCount, Fixture, Later;
    if model.campaigns == [] { return None; }
    var target, labels := model.campaigns[|model.campaigns| - 1], Labels(model.campaigns);
    if target.schedules == [] || labels == [] || !Readable(labels) { return None; }
    CountCovers(labels);
    var fixture := FixtureStep(FrameCount(labels));
    var later := BuildLater(model, guid);
    steps := Some([fixture] + later);
  }

  method BuildLater(model: Model, guid: Guid) returns (steps: seq<SuiteStep>)
    requires Buildable(model)
    ensures steps == Later(model, guid)
  {
    hide FrameMinutes, Labels, Earliest, CreateStep, VerifyStep, EvidenceStep, SchedulesFit, Readable, NumberOf;
    AllFit(model.campaigns);
    var first, n := Earliest(Labels(model.campaigns)), |model.campaigns| - 1;
    var number, target := NumberOf(model), model.campaigns[n];
    ghost var base := BaseSteps(model.campaigns[..n], number, first, guid);
    steps := [];
    for index := 0 to n
      invariant steps == base[..index]
    {
      assert base[index] == CreateStep(model.campaigns[index], index + 1, number, first, false, guid);
      steps := steps + [CreateStep(model.campaigns[index], index + 1, number, first, false, guid)];
    }
    assert steps == base;
    steps := steps + [VerifyStep(target, TargetDay(model), VerifyName(model.isValid), first, guid)];
    if model.isValid { steps := steps + [CreateStep(target, n + 1, number, first, true, guid)]; }
    steps := steps + [EvidenceStep(EvidenceName(model.isValid))];
  }

  // ---- suites are closed ----

  /** Every text in the body mentions known variables only. */
  predicate Closed(node: Node, known: set<string>) {
    match node
    case Str(t) => forall n :: n in T.Names(t) ==> n in known
    case Num(_) => true
    case Arr(items) => forall i :: 0 <= i < |items| ==> Closed(items[i], known)
    case Obj(members) => forall i :: 0 <= i < |members| ==> Closed(members[i].1, known)
  }

  predicate StepClosed(step: SuiteStep, known: set<string>) {
    (step.body.Some? ==> Closed(step.body.value, known))
    && forall p :: p in step.parameters ==> forall n :: n in T.Names(p.1) ==> n in known
  }

  function SavedNames(step: SuiteStep): set<string> { set p | p in step.save :: p.0 }

  /** The fixture's variables, the case's own variable and the built-in one. */
  function Known(count: nat): set<string> { SavedNames(Fixture(count)) + {"candidateName", "unique"} }

  lemma {:induction false} FrameSavesExact(count: nat, name: string)
    ensures (exists p :: p in FrameSaves(count) && p.0 == name) <==> exists k: nat :: 1 <= k <= count && name == TfName(k)
  {
    hide Decimal;
    if count > 0 {
      FrameSavesExact(count - 1, name);
      var last := (TfName(count), Row0(TfName(count)));
      assert last in FrameSaves(count);
      if exists k: nat :: 1 <= k <= count && name == TfName(k) {
        var k: nat :| 1 <= k <= count && name == TfName(k);
        if k < count {
          var p :| p in FrameSaves(count - 1) && p.0 == name;
          assert p in FrameSaves(count);
        }
      }
    }
  }

  lemma PlaceholderClosed(name: string, known: set<string>)
    requires T.IsName(name) && name in known
    ensures Closed(Str(T.Placeholder(name)), known)
  {
    hide T.Names, T.IsName;
    T.PlaceholderAlone(name, map[], map[]);
  }

  lemma TfIsName(k: nat)
    ensures T.IsName(TfName(k))
  {
    hide Decimal;
  }

  lemma TfKnown(count: nat, k: nat)
    requires 1 <= k <= count
    ensures TfName(k) in Known(count)
  {
    hide Decimal, FrameSaves;
    FrameSavesExact(count, TfName(k));
    var p :| p in FrameSaves(count) && p.0 == TfName(k);
    assert p in Fixture(count).save;
  }

  lemma FixedKnown(count: nat)
    ensures forall n :: n in FixedNames() ==> n in Known(count)
  {
    hide FrameSaves, Row0;
    var save := Fixture(count).save;
    assert forall p :: p in FixedSaves() ==> p in save;
    forall n | n in FixedNames() ensures n in SavedNames(Fixture(count)) {
      var i :| 0 <= i < |FixedNames()| && FixedNames()[i] == n;
      assert FixedSaves()[i] in FixedSaves() && FixedSaves()[i].0 == n;
    }
  }

  ghost predicate GuidPlain(guid: Guid) { forall s: string, k: nat :: Free(guid(s, k), '$') }

  lemma PlainClosed(t: string, known: set<string>)
    requires Free(t, '$')
    ensures Closed(Str(t), known)
  {
    T.NoDollarNoNames(t);
  }

  lemma ObjClosed(members: seq<(string, Node)>, known: set<string>)
    requires forall m :: m in members ==> Closed(m.1, known)
    ensures Closed(Obj(members), known)
  {
    forall i | 0 <= i < |members| ensures Closed(members[i].1, known) { assert members[i] in members; }
  }

  predicate MembersClosed(members: seq<(string, Node)>, known: set<string>) { forall m :: m in members ==> Closed(m.1, known) }

  lemma FrameMembersClosed(schedule: Schedule, frame: string, first: int, count: nat)
    requires FrameMinutes(frame).Some? && 0 <= Offset(frame, first) < count
    ensures MembersClosed(FrameMembers(schedule, frame, first), Known(count))
  {
    hide FrameMinutes, Known, Closed, TfName, Allocation, T.Placeholder, T.IsName, Offset;
    var k := Offset(frame, first) + 1;
    TfIsName(k);
    TfKnown(count, k);
    PlaceholderClosed(TfName(k), Known(count));
    NumClosed(Known(count));
  }

  lemma GroupMembersClosed(group: Group, frame: string, key: string, known: set<string>)
    requires Free(key, '$')
    ensures MembersClosed(GroupMembers(group, frame, key), known)
  {
    hide Closed, Position;
    PlainClosed(key, known);
    NumClosed(known);
  }

  lemma FrameClosed(c: Campaign, schedule: Schedule, frame: string, seed: string, first: int, guid: Guid, count: nat)
    requires FrameMinutes(frame).Some? && 0 <= Offset(frame, first) < count && GuidPlain(guid)
    ensures Closed(FrameNode(c, schedule, frame, seed, first, guid), Known(count))
  {
    hide FrameMinutes, Known, Closed, GroupIndex, Offset, FrameMembers, GroupMembers, Fold;
    FrameMembersClosed(schedule, frame, first, count);
    var g := GroupIndex(schedule.groups, frame);
    if g < |schedule.groups| { GroupMembersClosed(schedule.groups[g], frame, guid(seed, g + 1), Known(count)); }
    ObjClosed(FrameNode(c, schedule, frame, seed, first, guid).members, Known(count));
  }

  lemma NumClosed(known: set<string>)
    ensures forall v :: Closed(Num(v), known)
  {
  }

  lemma ArrClosed(items: seq<Node>, known: set<string>)
    requires forall i :: 0 <= i < |items| ==> Closed(items[i], known)
    ensures Closed(Arr(items), known)
  {
  }

  function OwnNames(): seq<string> { FixedNames() + ["candidateName", "unique"] }

  lemma OwnAreNames()
    ensures forall n :: n in OwnNames() ==> T.IsName(n)
  {
  }

  lemma OwnKnown(count: nat)
    ensures forall n :: n in OwnNames() ==> n in Known(count)
  {
    hide Fixture, FixedNames, SavedNames;
    FixedKnown(count);
  }

  lemma FixedClosed(name: string, count: nat)
    requires name in OwnNames()
    ensures Closed(Str(T.Placeholder(name)), Known(count))
  {
    hide *;
    OwnAreNames();
    OwnKnown(count);
    PlaceholderClosed(name, Known(count));
  }

  predicate FramesWithin(frames: seq<string>, first: int, count: nat) {
    Readable(frames) && forall f :: f in frames ==> 0 <= Offset(f, first) < count
  }

  lemma ScheduleClosed(c: Campaign, schedule: Schedule, seed: string, first: int, guid: Guid, count: nat)
    requires FramesWithin(schedule.frames, first, count) && GuidPlain(guid)
    ensures FramesFit(schedule.frames, first) && Closed(ScheduleNode(c, schedule, seed, first, guid), Known(count))
  {
    hide FrameMinutes, Known, Closed, FrameNode, GuidPlain;
    var nodes := FrameNodes(c, schedule, schedule.frames, seed, first, guid);
    forall i | 0 <= i < |nodes| ensures Closed(nodes[i], Known(count)) {
      assert schedule.frames[i] in schedule.frames;
      FrameClosed(c, schedule, schedule.frames[i], seed, first, guid, count);
    }
    ArrClosed(nodes, Known(count));
    FixedClosed("deviceId", count);
    FixedClosed("scheduleDate", count);
    FixedClosed("scheduleDate2", count);
    var device := Obj([("deviceId", Str(T.Placeholder("deviceId"))), ("timeFrames", Arr(nodes))]);
    ObjClosed(device.members, Known(count));
    ArrClosed([device], Known(count));
    ObjClosed(ScheduleNode(c, schedule, seed, first, guid).members, Known(count));
  }

  predicate SchedulesWithin(schedules: seq<Schedule>, first: int, count: nat) {
    forall s :: s in schedules ==> FramesWithin(s.frames, first, count)
  }

  lemma SchedulesClosed(c: Campaign, schedules: seq<Schedule>, seed: string, first: int, guid: Guid, count: nat)
    requires SchedulesWithin(schedules, first, count) && GuidPlain(guid)
    ensures SchedulesFit(schedules, first)
    ensures Closed(Arr(ScheduleNodes(c, schedules, seed, first, guid)), Known(count))
  {
    hide FrameMinutes, Known, Closed, ScheduleNode, GuidPlain;
    forall i | 0 <= i < |schedules|
      ensures FramesFit(schedules[i].frames, first) && Closed(ScheduleNode(c, schedules[i], seed, first, guid), Known(count))
    {
      assert schedules[i] in schedules;
      ScheduleClosed(c, schedules[i], seed, first, guid, count);
    }
    assert SchedulesFit(schedules, first);
    ArrClosed(ScheduleNodes(c, schedules, seed, first, guid), Known(count));
  }

  lemma BaseNameClosed(number: string, index: nat, count: nat)
    requires Free(number, '$')
    ensures Closed(Str("QC-VERIFY-" + number + "-BASE-" + Decimal(index) + "-" + T.Placeholder("unique")), Known(count))
  {
    hide T.Names, Decimal, Known;
    var prefix := "QC-VERIFY-" + number + "-BASE-" + Decimal(index) + "-";
    assert Free(Decimal(index), '$') by {
      forall i | 0 <= i < |Decimal(index)| ensures Decimal(index)[i] != '$' { assert IsDigit(Decimal(index)[i]); }
    }
    T.NamesSkip(prefix, T.Placeholder("unique"));
    FixedClosed("unique", count);
  }

  lemma CreateClosed(c: Campaign, index: nat, number: string, first: int, candidate: bool, guid: Guid, count: nat)
    requires SchedulesWithin(c.schedules, first, count) && GuidPlain(guid) && Free(number, '$')
    ensures SchedulesFit(c.schedules, first) && StepClosed(CreateStep(c, index, number, first, candidate, guid), Known(count))
  {
    hide Known, Closed, ScheduleNodes, GuidPlain, Decimal;
    SchedulesClosed(c, c.schedules, number + "-" + Decimal(index), first, guid, count);
    BaseNameClosed(number, index, count);
    FixedClosed("candidateName", count);
    FixedClosed("creativeId", count);
    FixedClosed("fieldId", count);
    FixedClosed("scheduleDate", count);
    FixedClosed("scheduleDate2", count);
    PlainClosed("QC workbook " + number, Known(count));
    NumClosed(Known(count));
    ObjClosed(CreateStep(c, index, number, first, candidate, guid).body.value.members, Known(count));
  }

  lemma VerifyClosed(c: Campaign, dateKey: string, name: string, first: int, guid: Guid, count: nat)
    requires SchedulesWithin(c.schedules, first, count) && c.schedules != [] && GuidPlain(guid)
    ensures SchedulesFit(c.schedules, first) && StepClosed(VerifyStep(c, dateKey, name, first, guid), Known(count))
  {
    hide Known, Closed, ScheduleNode, GuidPlain;
    SchedulesClosed(c, c.schedules, "verify", first, guid, count);
    var schedule := TargetSchedule(c.schedules, dateKey);
    ScheduleClosed(c, schedule, "verify", first, guid, count);
    ArrClosed([ScheduleNode(c, schedule, "verify", first, guid)], Known(count));
    NumClosed(Known(count));
    ObjClosed(VerifyStep(c, dateKey, name, first, guid).body.value.members, Known(count));
  }

  lemma EvidenceClosed(name: string, count: nat)
    ensures StepClosed(EvidenceStep(name), Known(count))
  {
    hide Known;
    FixedClosed("candidateName", count);
  }

  lemma CampaignWithin(campaigns: seq<Campaign>, c: Campaign)
    requires Labels(campaigns) != [] && Readable(Labels(campaigns)) && c in campaigns
    ensures FrameCount(Labels(campaigns)) >= 0
    ensures SchedulesWithin(c.schedules, Earliest(Labels(campaigns)), FrameCount(Labels(campaigns)))
  {
    hide FrameMinutes, Earliest, FrameCount, Offset;
    var labels := Labels(campaigns);
    CountCovers(labels);
    forall s, f | s in c.schedules && f in s.frames
      ensures FrameMinutes(f).Some? && 0 <= Offset(f, Earliest(labels)) < FrameCount(labels)
    {
      assert f in ScheduleLabels(c.schedules);
      assert f in labels;
    }
  }

  predicate AllClosed(steps: seq<SuiteStep>, known: set<string>) { forall s :: s in steps ==> StepClosed(s, known) }

  lemma BaseClosed(campaigns: seq<Campaign>, number: string, first: int, guid: Guid, count: nat)
    requires GuidPlain(guid) && Free(number, '$') && forall c :: c in campaigns ==> SchedulesWithin(c.schedules, first, count)
    ensures forall c :: c in campaigns ==> SchedulesFit(c.schedules, first)
    ensures AllClosed(BaseSteps(campaigns, number, first, guid), Known(count))
  {
    hide Known, StepClosed, CreateStep, GuidPlain, SchedulesWithin, SchedulesFit;
    forall i | 0 <= i < |campaigns|
      ensures SchedulesFit(campaigns[i].schedules, first)
      ensures StepClosed(CreateStep(campaigns[i], i + 1, number, first, false, guid), Known(count))
    {
      assert campaigns[i] in campaigns;
      CreateClosed(campaigns[i], i + 1, number, first, false, guid, count);
    }
  }

  /** Main result: after the fixture step, every variable in every generated step is one that the fixture saved, the
      case's own `candidateName`, or `unique`. */
  lemma SuiteIsClosed(model: Model, guid: Guid)
    requires Buildable(model) && GuidPlain(guid) && Free(NumberOf(model), '$')
    ensures var count := FrameCount(Labels(model.campaigns));
            count >= 1 && Suite(model, guid)[0] == Fixture(count) && AllClosed(Suite(model, guid)[1..], Known(count))
  {
    hide Known, StepClosed, CreateStep, VerifyStep, EvidenceStep, Fixture, Earliest, FrameCount, FrameMinutes, Labels, GuidPlain, NumberOf,
      SchedulesWithin, SchedulesFit, Readable, BaseSteps;
    var labels, n := Labels(model.campaigns), |model.campaigns| - 1;
    var first, number, count := Earliest(labels), NumberOf(model), FrameCount(labels);
    AllFit(model.campaigns);
    CountCovers(labels);
    forall c | c in model.campaigns ensures SchedulesWithin(c.schedules, first, count) { CampaignWithin(model.campaigns, c); }
    var target := model.campaigns[n];
    BaseClosed(model.campaigns[..n], number, first, guid, count);
    CreateClosed(target, n + 1, number, first, true, guid, count);
    VerifyClosed(target, TargetDay(model), VerifyName(model.isValid), first, guid, count);
    EvidenceClosed(EvidenceName(model.isValid), count);
    assert Suite(model, guid)[1..] == Later(model, guid);
  }

  /** The frame variables among them are exactly `tf1` to `tf<count>`. */
  lemma FrameVariablesExactly(count: nat, k: nat)
    ensures TfName(k) in Known(count) <==> 1 <= k <= count
  {
    hide Decimal, FrameSaves;
    if 1 <= k <= count {
      TfKnown(count, k);
    } else if TfName(k) in Known(count) {
      assert TfName(k)[0] == 't';
      var p :| p in Fixture(count).save && p.0 == TfName(k);
      assert p !in FixedSaves();
      assert p in FrameSaves(count);
      FrameSavesExact(count, TfName(k));
      var j: nat :| 1 <= j <= count && TfName(k) == TfName(j);
      assert TfName(k)[2..] == Decimal(k) && TfName(j)[2..] == Decimal(j);
      DecimalInjective(k, j);
    }
  }

  /** Each frame of a schedule refers to the variable of its own 8 minutes. */
  lemma FrameRefersTo(labels: seq<string>, c: Campaign, schedule: Schedule, frame: string, seed: string, guid: Guid)
    requires labels != [] && Readable(labels) && frame in labels
    ensures Offset(frame, Earliest(labels)) >= 0 && 1 <= FrameNumber(labels, frame) <= FrameCount(labels)
    ensures var node := FrameNode(c, schedule, frame, seed, Earliest(labels), guid);
            node.Obj? && node.members != []
            && node.members[0] == ("timeFrameId", Str(T.Placeholder(TfName(FrameNumber(labels, frame)))))
            && TfName(FrameNumber(labels, frame)) in Known(FrameCount(labels))
  {
    hide FrameMinutes, Earliest, FrameCount, Known, TfName, T.Placeholder, Allocation, Offset, GroupMembers, GroupIndex, Fold;
    CountCovers(labels);
    TfKnown(FrameCount(labels), FrameNumber(labels, frame));
  }
}
