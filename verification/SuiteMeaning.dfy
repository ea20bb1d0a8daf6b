/** What a generated suite asks for, read off its steps member by member. */
module SuiteMeaning {
  import opened Int32
  import opened Optional
  import opened Text
  import opened VerifyModels
  import opened VerifySuite
  import D = Dictionaries
  import T = Templates

  // ---- reading ----

  /** The object has one member of that name, with that value. */
  predicate Has(node: Node, name: string, value: Node) {
    node.Obj? && exists i :: 0 <= i < |node.members| && OnlyNamed(node.members, name, i) && node.members[i].1 == value
  }

  predicate OnlyNamed(members: seq<(string, Node)>, name: string, i: nat) {
    i < |members| && members[i].0 == name && forall j :: 0 <= j < |members| && j != i ==> members[j].0 != name
  }

  predicate Lacks(node: Node, name: string) { node.Obj? && forall i :: 0 <= i < |node.members| ==> node.members[i].0 != name }

  predicate DistinctNames(members: seq<(string, Node)>) {
    forall i, j :: 0 <= i < |members| && 0 <= j < |members| && i != j ==> members[i].0 != members[j].0
  }

  lemma HasAt(members: seq<(string, Node)>, i: nat)
    requires DistinctNames(members) && i < |members|
    ensures Has(Obj(members), members[i].0, members[i].1)
  {
    assert OnlyNamed(members, members[i].0, i);
  }

  // ---- the clock ----

  /** Hours, a colon, two digits for the minutes, and anything behind them. */
  lemma ClockReads(hours: string, minutes: string, rest: string)
    requires hours != "" && AllDigits(hours) && |minutes| == 2 && AllDigits(minutes) && DecimalValue(hours) <= MAX_INT
    ensures FrameMinutes(hours + ":" + minutes + rest) == Some(60 * DecimalValue(hours) + DecimalValue(minutes))
  {
    hide DecimalValue, Split, ParseInt;
    var behind := minutes + rest;
    assert hours + ":" + minutes + rest == hours + ([':'] + behind);
    SplitDigits(hours, [':'] + behind, ':');
    SplitHere(':', behind);
    SplitDigits(minutes, rest, ':');
    var values := Split(hours + ":" + minutes + rest, ':');
    assert values[0] == hours + "" == hours && values[1] == minutes + Split(rest, ':')[0];
    assert values[1][..2] == minutes;
    ParseIntReads(hours);
    TwoDigits(minutes);
    ParseIntReads(minutes);
  }

  lemma TwoDigits(s: string)
    requires |s| == 2 && AllDigits(s)
    ensures DecimalValue(s) <= 99
  {
    assert s[..1][..0] == "";
    assert DecimalValue(s[..1]) <= 9;
  }

  lemma ParseIntReads(s: string)
    requires s != "" && AllDigits(s) && DecimalValue(s) <= MAX_INT
    ensures ParseInt(s) == Some(DecimalValue(s))
  {
    TrimDigits(s);
  }

  lemma SplitPlain(x: char, s: string, c: char)
    requires x != c
    ensures Split([x] + s, c) == [[x] + Split(s, c)[0]] + Split(s, c)[1..]
  {
    assert ([x] + s)[1..] == s;
  }

  lemma SplitHere(c: char, s: string)
    ensures Split([c] + s, c) == [""] + Split(s, c)
  {
    assert ([c] + s)[1..] == s;
  }

  /** Digits before a separator stay in the first piece. */
  lemma {:induction false} SplitDigits(a: string, s: string, c: char)
    requires AllDigits(a) && !IsDigit(c)
    ensures Split(a + s, c) == [a + Split(s, c)[0]] + Split(s, c)[1..]
  {
    hide Split;
    if a == "" {
      assert a + s == s && a + Split(s, c)[0] == Split(s, c)[0];
      assert [Split(s, c)[0]] + Split(s, c)[1..] == Split(s, c);
    } else {
      SplitDigits(a[1..], s, c);
      SplitPlain(a[0], a[1..] + s, c);
      assert a + s == [a[0]] + (a[1..] + s);
      assert [a[0]] + (a[1..] + Split(s, c)[0]) == a + Split(s, c)[0];
    }
  }

  /** Frame numbers run from 1, which the earliest label has, to the count, which some label has. */
  lemma CountExactly(labels: seq<string>)
    requires labels != [] && Readable(labels)
    ensures forall l :: l in labels ==> 1 <= FrameNumber(labels, l) <= FrameCount(labels)
    ensures exists l :: l in labels && FrameNumber(labels, l) == FrameCount(labels)
    ensures forall l :: l in labels && (forall m :: m in labels ==> Minute(l) <= Minute(m)) ==> FrameNumber(labels, l) == 1
  {
    hide FrameMinutes, Earliest;
    CountCovers(labels);
    EarliestIsFirst(labels);
    var offsets := Offsets(labels, Earliest(labels));
    var i :| 0 <= i < |offsets| && offsets[i] == Max(offsets);
    assert labels[i] in labels && FrameNumber(labels, labels[i]) == FrameCount(labels);
  }

  // ---- frames ----

  predicate FirstFor(entries: seq<(string, int)>, frame: string, i: nat) {
    i < |entries| && Fold(entries[i].0) == Fold(frame) && forall j :: 0 <= j < i ==> Fold(entries[j].0) != Fold(frame)
  }

  /** The figure that is entered for the label, ignoring case, or 0. */
  predicate Allots(entries: seq<(string, int)>, frame: string, n: int) {
    (forall i :: 0 <= i < |entries| && FirstFor(entries, frame, i) ==> n == entries[i].1)
    && ((forall e :: e in entries ==> Fold(e.0) != Fold(frame)) ==> n == 0)
  }

  predicate Labelled(group: Group, frame: string) { exists i :: 0 <= i < |group.frames| && Fold(group.frames[i]) == Fold(frame) }

  /** Group `g` is the first with that label, ignoring case. */
  predicate FirstGroup(groups: seq<Group>, frame: string, g: nat) {
    g < |groups| && Labelled(groups[g], frame) && forall h :: 0 <= h < g ==> !Labelled(groups[h], frame)
  }

  /** The place of the label in the list, from 1, or 0 when only another spelling is there. */
  predicate PlaceOf(frames: seq<string>, frame: string, n: int) {
    if frame in frames then 1 <= n <= |frames| && frames[n - 1] == frame && frame !in frames[..n - 1] else n == 0
  }

  /** A frame refers to the variable of its own 8 minutes and has its allocation; in a Duration campaign it also has the key
      and its place in the first group with its label. */
  ghost predicate FrameTells(node: Node, c: Campaign, schedule: Schedule, frame: string, seed: string, first: int, guid: Guid)
    requires FrameMinutes(frame).Some? && Minute(frame) >= first
  {
    Has(node, "timeFrameId", Str("${tf" + Decimal((Minute(frame) - first) / 8 + 1) + "}"))
    && (exists n :: Has(node, "spotCount", Num(n)) && Allots(schedule.perFrame, frame, n))
    && (if Fold(c.kind) == "duration" && exists g :: 0 <= g < |schedule.groups| && FirstGroup(schedule.groups, frame, g) then
          exists g, n :: 0 <= g < |schedule.groups| && FirstGroup(schedule.groups, frame, g)
            && Has(node, "timeFrameGroupKey", Str(guid(seed, g + 1)))
            && Has(node, "timeFrameGroupOrder", Num(n)) && PlaceOf(schedule.groups[g].frames, frame, n)
        else Lacks(node, "timeFrameGroupKey") && Lacks(node, "timeFrameGroupOrder"))
  }

  lemma {:induction false} AllotsExactly(entries: seq<(string, int)>, frame: string)
    ensures Allots(entries, frame, Allocation(entries, frame))
  {
    hide Fold;
    if entries != [] {
      AllotsExactly(entries[1..], frame);
      var n := Allocation(entries, frame);
      forall i | 0 <= i < |entries| && FirstFor(entries, frame, i) ensures n == entries[i].1 {
        if i > 0 {
          assert Fold(entries[0].0) != Fold(frame);
          assert FirstFor(entries[1..], frame, i - 1) by {
            assert forall j :: 0 <= j < i - 1 ==> entries[1..][j] == entries[j + 1];
          }
        }
      }
    }
  }

  lemma PlaceExactly(frames: seq<string>, frame: string)
    ensures PlaceOf(frames, frame, Position(frames, frame) + 1)
  {
    if frames != [] && frames[0] != frame {
      PlaceExactly(frames[1..], frame);
      var i := Position(frames[1..], frame);
      if i >= 0 { assert frames[..i + 1] == [frames[0]] + frames[1..][..i]; }
    }
  }

  lemma HoldsExactly(group: Group, frame: string)
    ensures Holds(group, frame) <==> Labelled(group, frame)
  {
    hide Fold;
    if f :| f in group.frames && Fold(f) == Fold(frame) {
      var i :| 0 <= i < |group.frames| && group.frames[i] == f;
    }
    if i :| 0 <= i < |group.frames| && Fold(group.frames[i]) == Fold(frame) { assert group.frames[i] in group.frames; }
  }

  lemma GroupExactly(groups: seq<Group>, frame: string, g: nat)
    ensures FirstGroup(groups, frame, g) <==> g == GroupIndex(groups, frame) && g < |groups|
  {
    hide Holds, Labelled, GroupIndex;
    forall h | 0 <= h < |groups| ensures Holds(groups[h], frame) <==> Labelled(groups[h], frame) { HoldsExactly(groups[h], frame); }
  }

  lemma FourMembers(a: Node, b: Node, c: Node, d: Node)
    ensures var two := Obj([("timeFrameId", a), ("spotCount", b)]);
            Has(two, "timeFrameId", a) && Has(two, "spotCount", b) && Lacks(two, "timeFrameGroupKey") && Lacks(two, "timeFrameGroupOrder")
    ensures var four := Obj([("timeFrameId", a), ("spotCount", b), ("timeFrameGroupKey", c), ("timeFrameGroupOrder", d)]);
            Has(four, "timeFrameId", a) && Has(four, "spotCount", b) && Has(four, "timeFrameGroupKey", c) && Has(four, "timeFrameGroupOrder", d)
  {
    hide Has;
    var two, four := [("timeFrameId", a), ("spotCount", b)],
      [("timeFrameId", a), ("spotCount", b), ("timeFrameGroupKey", c), ("timeFrameGroupOrder", d)];
    assert |"timeFrameId"| == 11 && |"spotCount"| == 9 && |"timeFrameGroupKey"| == 17 && |"timeFrameGroupOrder"| == 19;
    HasAt(two, 0);
    HasAt(two, 1);
    HasAt(four, 0);
    HasAt(four, 1);
    HasAt(four, 2);
    HasAt(four, 3);
  }

  lemma FrameExactly(c: Campaign, schedule: Schedule, frame: string, seed: string, first: int, guid: Guid)
    requires FrameMinutes(frame).Some? && Minute(frame) >= first
    ensures FrameTells(FrameNode(c, schedule, frame, seed, first, guid), c, schedule, frame, seed, first, guid)
  {
    hide FrameMinutes, Has, Lacks, Allots, PlaceOf, FirstGroup, GroupIndex, Position, Allocation, Fold, Decimal;
    var g, groups := GroupIndex(schedule.groups, frame), schedule.groups;
    var n := Allocation(schedule.perFrame, frame);
    AllotsExactly(schedule.perFrame, frame);
    forall h | 0 <= h < |groups| ensures FirstGroup(groups, frame, h) <==> h == g { GroupExactly(groups, frame, h); }
    var id := Str("${tf" + Decimal((Minute(frame) - first) / 8 + 1) + "}");
    assert "${" + ("tf" + Decimal((Minute(frame) - first) / 8 + 1)) + "}" == "${tf" + Decimal((Minute(frame) - first) / 8 + 1) + "}";
    if g < |groups| {
      var key, place := Str(guid(seed, g + 1)), Num(Position(groups[g].frames, frame) + 1);
      PlaceExactly(groups[g].frames, frame);
      FourMembers(id, Num(n), key, place);
      assert FrameMembers(schedule, frame, first) + GroupMembers(groups[g], frame, guid(seed, g + 1))
        == [("timeFrameId", id), ("spotCount", Num(n)), ("timeFrameGroupKey", key), ("timeFrameGroupOrder", place)];
    }
    FourMembers(id, Num(n), id, id);
    assert FrameMembers(schedule, frame, first) + [] == [("timeFrameId", id), ("spotCount", Num(n))];
  }

  // ---- schedules ----

  predicate Timed(frames: seq<string>, first: int) { forall f :: f in frames ==> FrameMinutes(f).Some? && Minute(f) >= first }

  /** A schedule names the saved date of its day and one device, and has its frames in their order. */
  ghost predicate ScheduleTells(node: Node, c: Campaign, schedule: Schedule, seed: string, first: int, guid: Guid)
    requires Timed(schedule.frames, first)
  {
    Has(node, "date", Str(if schedule.dateKey == "day1" then "${scheduleDate}" else "${scheduleDate2}"))
    && exists device: Node, frames: seq<Node> ::
         Has(node, "devices", Arr([device])) && Has(device, "deviceId", Str("${deviceId}")) && Has(device, "timeFrames", Arr(frames))
         && FramesTell(frames, c, schedule, seed, first, guid)
  }

  ghost predicate FramesTell(nodes: seq<Node>, c: Campaign, schedule: Schedule, seed: string, first: int, guid: Guid)
    requires Timed(schedule.frames, first)
  {
    |nodes| == |schedule.frames|
    && forall i :: 0 <= i < |nodes| ==>
         schedule.frames[i] in schedule.frames && FrameTells(nodes[i], c, schedule, schedule.frames[i], seed, first, guid)
  }

  lemma FramesExactly(c: Campaign, schedule: Schedule, seed: string, first: int, guid: Guid)
    requires FramesFit(schedule.frames, first)
    ensures Timed(schedule.frames, first)
    ensures FramesTell(FrameNodes(c, schedule, schedule.frames, seed, first, guid), c, schedule, seed, first, guid)
  {
    hide FrameMinutes, FrameTells, FrameNode, FramesFit;
    FitIsTimed(schedule.frames, first);
    var frames := FrameNodes(c, schedule, schedule.frames, seed, first, guid);
    forall i | 0 <= i < |frames|
      ensures schedule.frames[i] in schedule.frames && FrameTells(frames[i], c, schedule, schedule.frames[i], seed, first, guid)
    {
      FrameExactly(c, schedule, schedule.frames[i], seed, first, guid);
    }
  }

  lemma TwoMembers(x: string, y: string, a: Node, b: Node)
    requires x != y
    ensures Has(Obj([(x, a), (y, b)]), x, a) && Has(Obj([(x, a), (y, b)]), y, b)
  {
    hide Has;
    var two := [(x, a), (y, b)];
    HasAt(two, 0);
    HasAt(two, 1);
  }

  lemma FitIsTimed(frames: seq<string>, first: int)
    ensures FramesFit(frames, first) <==> Timed(frames, first)
  {
    hide FrameMinutes;
  }

  lemma ScheduleExactly(c: Campaign, schedule: Schedule, seed: string, first: int, guid: Guid)
    requires FramesFit(schedule.frames, first)
    ensures Timed(schedule.frames, first) && ScheduleTells(ScheduleNode(c, schedule, seed, first, guid), c, schedule, seed, first, guid)
  {
    hide FrameMinutes, Has, FramesTell, FrameNodes, FramesFit, Timed;
    FramesExactly(c, schedule, seed, first, guid);
    var frames := FrameNodes(c, schedule, schedule.frames, seed, first, guid);
    var device := Obj([("deviceId", Str("${deviceId}")), ("timeFrames", Arr(frames))]);
    assert |"deviceId"| == 8 && |"timeFrames"| == 10 && |"date"| == 4 && |"devices"| == 7;
    Braces();
    TwoMembers("deviceId", "timeFrames", Str("${deviceId}"), Arr(frames));
    var date := Str(if schedule.dateKey == "day1" then "${scheduleDate}" else "${scheduleDate2}");
    TwoMembers("date", "devices", date, Arr([device]));
    assert ScheduleNode(c, schedule, seed, first, guid) == Obj([("date", date), ("devices", Arr([device]))]);
  }

  // ---- steps ----

  predicate CampaignTimed(c: Campaign, first: int) { forall s :: s in c.schedules ==> Timed(s.frames, first) }

  ghost predicate SchedulesTell(nodes: seq<Node>, c: Campaign, seed: string, first: int, guid: Guid)
    requires CampaignTimed(c, first)
  {
    |nodes| == |c.schedules|
    && forall i :: 0 <= i < |nodes| ==> c.schedules[i] in c.schedules && ScheduleTells(nodes[i], c, c.schedules[i], seed, first, guid)
  }

  /** A campaign is created under its own name, with its kind, the saved creative and field, the saved days, and one schedule
      per day. */
  ghost predicate CreateTells(step: SuiteStep, c: Campaign, index: nat, number: string, first: int, candidate: bool, guid: Guid)
    requires CampaignTimed(c, first)
  {
    step.name == (if candidate then "Tạo campaign đích " else "Tạo campaign nền ") + c.name && step.parameters == [] && step.save == []
    && step.body.Some?
    && var body := step.body.value;
       Has(body, "name", Str(if candidate then "${candidateName}"
                             else "QC-VERIFY-" + number + "-BASE-" + Decimal(index) + "-" + "${unique}"))
       && Has(body, "customerName", Str("QC workbook " + number)) && Has(body, "sourceType", Num(1))
       && Has(body, "type", Num(if Fold(c.kind) == "spot" then 1 else 2))
       && Has(body, "creativeId", Str("${creativeId}")) && Has(body, "fieldId", Str("${fieldId}"))
       && Has(body, "runStart", Str("${scheduleDate}")) && Has(body, "runEnd", Str("${scheduleDate2}"))
       && exists schedules: seq<Node> ::
            Has(body, "schedules", Arr(schedules)) && SchedulesTell(schedules, c, number + "-" + Decimal(index), first, guid)
  }

  lemma NineMembers(m: seq<(string, Node)>)
    requires |m| == 9 && m[0].0 == "name" && m[1].0 == "customerName" && m[2].0 == "sourceType" && m[3].0 == "type"
    requires m[4].0 == "creativeId" && m[5].0 == "fieldId" && m[6].0 == "runStart" && m[7].0 == "runEnd" && m[8].0 == "schedules"
    ensures DistinctNames(m)
  {
    assert |"name"| == 4 && |"customerName"| == 12 && |"sourceType"| == 10 && |"type"| == 4 && |"creativeId"| == 10;
    assert |"fieldId"| == 7 && |"runStart"| == 8 && |"runEnd"| == 6 && |"schedules"| == 9;
    assert "name"[0] != "type"[0] && "sourceType"[0] != "creativeId"[0];
  }

  lemma NineHave(m: seq<(string, Node)>)
    requires |m| == 9 && m[0].0 == "name" && m[1].0 == "customerName" && m[2].0 == "sourceType" && m[3].0 == "type"
    requires m[4].0 == "creativeId" && m[5].0 == "fieldId" && m[6].0 == "runStart" && m[7].0 == "runEnd" && m[8].0 == "schedules"
    ensures Has(Obj(m), "name", m[0].1) && Has(Obj(m), "customerName", m[1].1) && Has(Obj(m), "sourceType", m[2].1)
    ensures Has(Obj(m), "type", m[3].1) && Has(Obj(m), "creativeId", m[4].1) && Has(Obj(m), "fieldId", m[5].1)
    ensures Has(Obj(m), "runStart", m[6].1) && Has(Obj(m), "runEnd", m[7].1) && Has(Obj(m), "schedules", m[8].1)
  {
    hide Has, DistinctNames;
    NineMembers(m);
    HasAt(m, 0);
    HasAt(m, 1);
    HasAt(m, 2);
    HasAt(m, 3);
    HasAt(m, 4);
    HasAt(m, 5);
    HasAt(m, 6);
    HasAt(m, 7);
    HasAt(m, 8);
  }

  lemma SchedulesExactly(c: Campaign, seed: string, first: int, guid: Guid)
    requires SchedulesFit(c.schedules, first)
    ensures CampaignTimed(c, first) && SchedulesTell(ScheduleNodes(c, c.schedules, seed, first, guid), c, seed, first, guid)
  {
    hide FrameMinutes, FramesFit, Timed, ScheduleTells, ScheduleNode;
    forall s | s in c.schedules ensures Timed(s.frames, first) { FitIsTimed(s.frames, first); }
    var schedules := ScheduleNodes(c, c.schedules, seed, first, guid);
    forall i | 0 <= i < |schedules|
      ensures c.schedules[i] in c.schedules && ScheduleTells(schedules[i], c, c.schedules[i], seed, first, guid)
    {
      ScheduleExactly(c, c.schedules[i], seed, first, guid);
    }
  }

  lemma CreateExactly(c: Campaign, index: nat, number: string, first: int, candidate: bool, guid: Guid)
    requires SchedulesFit(c.schedules, first)
    ensures CampaignTimed(c, first)
    ensures CreateTells(CreateStep(c, index, number, first, candidate, guid), c, index, number, first, candidate, guid)
  {
    hide Has, CampaignTimed, SchedulesTell, ScheduleNodes, DistinctNames, Fold, Decimal, SchedulesFit;
    var seed := number + "-" + Decimal(index);
    SchedulesExactly(c, seed, first, guid);
    NineHave(CreateStep(c, index, number, first, candidate, guid).body.value.members);
    Braces();
  }

  lemma Braces()
    ensures "${" + "deviceId" + "}" == "${deviceId}"
    ensures "${" + "candidateName" + "}" == "${candidateName}" && "${" + "unique" + "}" == "${unique}"
    ensures "${" + "creativeId" + "}" == "${creativeId}" && "${" + "fieldId" + "}" == "${fieldId}"
    ensures "${" + "scheduleDate" + "}" == "${scheduleDate}" && "${" + "scheduleDate2" + "}" == "${scheduleDate2}"
  {
  }

  predicate FirstOfDay(schedules: seq<Schedule>, dateKey: string, s: nat) {
    s < |schedules| && schedules[s].dateKey == dateKey && forall r :: 0 <= r < s ==> schedules[r].dateKey != dateKey
  }

  /** The schedule is the first of the day, or the last of all when the day has none. */
  predicate TargetIs(schedules: seq<Schedule>, dateKey: string, s: nat) {
    s < |schedules|
    && (FirstOfDay(schedules, dateKey, s) || (s == |schedules| - 1 && forall r :: r in schedules ==> r.dateKey != dateKey))
  }

  /** The target is verified with its kind and the schedule of the target day. */
  ghost predicate VerifyTells(step: SuiteStep, c: Campaign, dateKey: string, valid: bool, first: int, guid: Guid)
    requires CampaignTimed(c, first)
  {
    step.name == (if valid then "Verify campaign đích đúng expectation workbook"
                  else "Verify campaign đích bị từ chối đúng expectation workbook")
    && step.parameters == [] && step.save == [] && step.body.Some?
    && Has(step.body.value, "type", Num(if Fold(c.kind) == "spot" then 1 else 2))
    && exists s: nat, node: Node ::
         TargetIs(c.schedules, dateKey, s) && Has(step.body.value, "schedules", Arr([node]))
         && c.schedules[s] in c.schedules && ScheduleTells(node, c, c.schedules[s], "verify", first, guid)
  }

  lemma {:induction false} DateExactly(schedules: seq<Schedule>, dateKey: string)
    ensures var i := DateIndex(schedules, dateKey);
            if i < |schedules| then FirstOfDay(schedules, dateKey, i) else forall r :: r in schedules ==> r.dateKey != dateKey
  {
    if schedules != [] && schedules[0].dateKey != dateKey {
      DateExactly(schedules[1..], dateKey);
      assert forall r :: r in schedules <==> r == schedules[0] || r in schedules[1..];
      assert forall r :: 1 <= r < |schedules| ==> schedules[r] == schedules[1..][r - 1];
    }
  }

  lemma VerifyExactly(c: Campaign, dateKey: string, valid: bool, first: int, guid: Guid)
    requires SchedulesFit(c.schedules, first) && c.schedules != []
    ensures CampaignTimed(c, first)
    ensures VerifyTells(VerifyStep(c, dateKey, VerifyName(valid), first, guid), c, dateKey, valid, first, guid)
  {
    hide FrameMinutes, Has, FramesFit, Timed, ScheduleTells, ScheduleNode, DateIndex, Fold;
    forall s | s in c.schedules ensures Timed(s.frames, first) { FitIsTimed(s.frames, first); }
    DateExactly(c.schedules, dateKey);
    var i := DateIndex(c.schedules, dateKey);
    var s: nat := if i < |c.schedules| then i else |c.schedules| - 1;
    assert TargetIs(c.schedules, dateKey, s) && TargetSchedule(c.schedules, dateKey) == c.schedules[s];
    assert c.schedules[s] in c.schedules;
    ScheduleExactly(c, c.schedules[s], "verify", first, guid);
    var node := ScheduleNode(c, c.schedules[s], "verify", first, guid);
    assert |"type"| == 4 && |"schedules"| == 9;
    TwoMembers("type", "schedules", Num(if Fold(c.kind) == "spot" then 1 else 2), Arr([node]));
  }

  /** Nothing is sent: the step asks the database for the candidate's name. */
  predicate EvidenceTells(step: SuiteStep, valid: bool) {
    step.name == (if valid then "Xác nhận campaign đích được lưu sau Verify hợp lệ"
                  else "Xác nhận Verify bị từ chối không lưu Campaign một phần")
    && step.body == None && step.save == [] && step.parameters == [("name", "${candidateName}")]
  }

  /** The fixture saves each name from the column of that name in the first row. */
  predicate FixtureTells(step: SuiteStep, count: nat) {
    step.name == "Chọn fixture động theo thời điểm chạy" && step.body == None && step.parameters == []
    && |step.save| == 5 + count
    && (forall i :: 0 <= i < 5 ==>
          step.save[i].0 == ["scheduleDate", "scheduleDate2", "deviceId", "creativeId", "fieldId"][i]
          && step.save[i].1 == "$.rows.0." + step.save[i].0)
    && forall k :: 1 <= k <= count ==> step.save[4 + k] == ("tf" + Decimal(k), "$.rows.0." + "tf" + Decimal(k))
  }

  lemma {:induction false} FrameSavesExactly(count: nat)
    ensures |FrameSaves(count)| == count
    ensures forall k :: 1 <= k <= count ==> FrameSaves(count)[k - 1] == ("tf" + Decimal(k), "$.rows.0." + "tf" + Decimal(k))
  {
    hide Decimal;
    if count > 0 {
      FrameSavesExactly(count - 1);
      assert "$.rows.0." + ("tf" + Decimal(count)) == "$.rows.0." + "tf" + Decimal(count);
    }
  }

  lemma FixtureExactly(count: nat)
    ensures FixtureTells(Fixture(count), count)
  {
    hide Decimal, FrameSaves;
    FrameSavesExactly(count);
  }

  /** A fixture with one variable per frame number, one step per background campaign, the verification of the last one, its
      creation exactly when it is valid, and the look into the database. */
  ghost predicate SuiteTells(steps: seq<SuiteStep>, model: Model, count: nat, first: int, guid: Guid)
    requires model.campaigns != [] && forall c :: c in model.campaigns ==> CampaignTimed(c, first)
  {
    var n, number := |model.campaigns| - 1, NumberOf(model);
    |steps| == n + 3 + (if model.isValid then 1 else 0) && FixtureTells(steps[0], count)
    && (forall i :: 0 <= i < n ==>
          model.campaigns[i] in model.campaigns && CreateTells(steps[i + 1], model.campaigns[i], i + 1, number, first, false, guid))
    && model.campaigns[n] in model.campaigns
    && VerifyTells(steps[n + 1], model.campaigns[n], if model.direction == "day2-to-day1" then "day1" else "day2", model.isValid, first, guid)
    && (model.isValid ==> CreateTells(steps[n + 2], model.campaigns[n], n + 1, number, first, true, guid))
    && EvidenceTells(steps[|steps| - 1], model.isValid)
  }

  lemma AllTimed(model: Model)
    requires Buildable(model)
    ensures forall c :: c in model.campaigns ==> CampaignTimed(c, Earliest(Labels(model.campaigns)))
  {
    hide FrameMinutes, Labels, Earliest, Timed, FramesFit, Readable;
    AllFit(model.campaigns);
    forall c, s | c in model.campaigns && s in c.schedules ensures Timed(s.frames, Earliest(Labels(model.campaigns))) {
      FitIsTimed(s.frames, Earliest(Labels(model.campaigns)));
    }
  }

  lemma CountIsSome(labels: seq<string>)
    requires labels != [] && Readable(labels)
    ensures FrameCount(labels) >= 1
  {
    hide *;
    CountCovers(labels);
  }

  /** Main result: that is what a built suite is, with as many frame variables as there are frame numbers. */
  lemma SuiteExactly(model: Model, guid: Guid)
    requires Buildable(model)
    ensures FrameCount(Labels(model.campaigns)) >= 0
    ensures forall c :: c in model.campaigns ==> CampaignTimed(c, Earliest(Labels(model.campaigns)))
    ensures SuiteTells(Suite(model, guid), model, FrameCount(Labels(model.campaigns)), Earliest(Labels(model.campaigns)), guid)
  {
    hide FrameMinutes, Labels, Earliest, FrameCount, Fixture, FixtureTells, CreateStep, CreateTells, VerifyStep, VerifyTells, Readable,
      NumberOf, VerifyName, CampaignTimed, SchedulesFit, EvidenceName;
    var labels, n := Labels(model.campaigns), |model.campaigns| - 1;
    var first, number := Earliest(labels), NumberOf(model);
    CountIsSome(labels);
    AllFit(model.campaigns);
    AllTimed(model);
    FixtureExactly(FrameCount(labels));
    forall i | 0 <= i < n
      ensures model.campaigns[i] in model.campaigns
              && CreateTells(Suite(model, guid)[i + 1], model.campaigns[i], i + 1, number, first, false, guid)
    {
      CreateExactly(model.campaigns[i], i + 1, number, first, false, guid);
    }
    CreateExactly(model.campaigns[n], n + 1, number, first, true, guid);
    VerifyExactly(model.campaigns[n], TargetDay(model), model.isValid, first, guid);
    EvidenceExactly(model.isValid);
  }

  lemma EvidenceExactly(valid: bool)
    ensures EvidenceTells(EvidenceStep(EvidenceName(valid)), valid)
  {
    Braces();
  }
}
