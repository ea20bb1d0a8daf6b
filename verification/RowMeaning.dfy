/** What one row of a VERIFY sheet does, said by its cells, and what a campaign's figures add up to. */
module RowMeaning {
  import opened Dictionaries
  import opened Optional
  import opened RowFolding
  import opened Text
  import opened VerifyModels

  /** The text in a column, without the white space around it; a missing cell is empty. */
  predicate Says(row: Row, column: nat, text: string) {
    if column in row then Trim(row[column]) == text else text == ""
  }

  /** The number in a column, as the reader takes it. */
  function NumberIn(row: Row, column: nat, numbers: Numbers): Option<int> {
    if column in row then numbers(row[column]) else numbers("")
  }

  /** A frame label begins with one or two digits, a colon and two digits. */
  ghost predicate Clock(s: string) {
    exists hours: string, minutes: string, rest: string ::
      s == hours + ":" + minutes + rest && 1 <= |hours| <= 2 && |minutes| == 2 && AllDigits(hours) && AllDigits(minutes)
  }

  lemma ClockExactly(s: string)
    ensures IsFrame(s) <==> Clock(s)
  {
    if |s| >= 4 && IsDigit(s[0]) && s[1] == ':' && IsDigit(s[2]) && IsDigit(s[3]) {
      assert s == s[..1] + ":" + s[2..4] + s[4..];
    }
    if |s| >= 5 && IsDigit(s[0]) && IsDigit(s[1]) && s[2] == ':' && IsDigit(s[3]) && IsDigit(s[4]) {
      assert s == s[..2] + ":" + s[3..5] + s[5..];
    }
    if Clock(s) {
      var hours: string, minutes: string, rest: string :|
        s == hours + ":" + minutes + rest && 1 <= |hours| <= 2 && |minutes| == 2 && AllDigits(hours) && AllDigits(minutes);
      var n := |hours|;
      assert s[0] == hours[0] && s[n] == ':' && s[n + 1] == minutes[0] && s[n + 2] == minutes[1];
      if n == 2 { assert s[1] == hours[1]; }
    }
  }

  predicate Begins(row: Row, offset: nat) { Says(row, 2 + offset, "Spot") || Says(row, 2 + offset, "Duration") }

  lemma TrimsNothing()
    ensures Trim("") == ""
  {
  }

  /** A row begins a campaign exactly when its kind says so; the campaign has the row's name and kind and nothing else. */
  lemma BeginsExactly(row: Row, offset: nat)
    ensures IsHeader(row, offset) <==> Begins(row, offset)
    ensures var c := Started(row, offset);
            Says(row, 1 + offset, c.name) && Says(row, 2 + offset, c.kind)
            && c.frames == [] && c.perFrame == [] && c.groups == [] && !c.hasFail
  {
    hide Trim;
    TrimsNothing();
  }

  /** An allocation in the row is entered under the label, ignoring case; other labels keep theirs. */
  predicate TakesIn(before: Entries<int>, after: Entries<int>, frame: string, allocation: Option<int>, key: string) {
    Lookup(after, key, Fold) ==
      if allocation.Some? && Fold(key) == Fold(frame) then allocation else Lookup(before, key, Fold)
  }

  /** The row asks for a group of its own: a requested figure, no group so far, or a maximum in a Spot campaign whose last
      group has a frame. */
  predicate AsksForGroup(c: OpenCampaign, maximum: Option<int>, requested: Option<int>) {
    c.groups == [] || requested.Some?
    || (maximum.Some? && c.kind == "Spot" && |c.groups[|c.groups| - 1].frames| > 0)
  }

  /** What a frame row does to its campaign. */
  predicate Extends(c: OpenCampaign, c': OpenCampaign, frame: string, maximum: Option<int>, requested: Option<int>,
                    allocation: Option<int>, failed: bool, key: string)
  {
    c'.name == c.name && c'.kind == c.kind && c'.frames == c.frames + [frame]
    && TakesIn(c.perFrame, c'.perFrame, frame, allocation, key)
    && (c'.hasFail <==> c.hasFail || (allocation.None? && failed))
    && |c'.groups| > 0
    && var last := c'.groups[|c'.groups| - 1];
       if AsksForGroup(c, maximum, requested) then
         c'.groups[..|c'.groups| - 1] == c.groups && last.frames == [frame] && last.maximum == maximum
         && (if requested.Some? then last.requested == requested.value else last.requested == 0)
         && TakesIn([], last.perFrame, frame, allocation, key)
       else
         |c'.groups| == |c.groups| && c'.groups[..|c.groups| - 1] == c.groups[..|c.groups| - 1]
         && var before := c.groups[|c.groups| - 1];
            last.frames == before.frames + [frame] && last.requested == before.requested
            && last.maximum == (if before.maximum.Some? then before.maximum else maximum)
            && TakesIn(before.perFrame, last.perFrame, frame, allocation, key)
  }

  lemma EnteredExactly(entries: Entries<int>, frame: string, figures: Figures, key: string)
    ensures TakesIn(entries, Entered(entries, frame, figures), frame, figures.allocation, key)
  {
    hide Put, Lookup, Fold;
    if figures.allocation.Some? { PutLookup(entries, frame, figures.allocation.value, Fold, key); }
  }

  lemma ExtendsExactly(c: OpenCampaign, frame: string, figures: Figures, key: string)
    ensures Extends(c, AddFrame(c, frame, figures), frame, figures.maximum, figures.requested, figures.allocation, figures.fail, key)
  {
    hide TakesIn, Entered;
    EnteredExactly(c.perFrame, frame, figures, key);
    EnteredExactly([], frame, figures, key);
    if c.groups != [] { EnteredExactly(c.groups[|c.groups| - 1].perFrame, frame, figures, key); }
  }

  lemma FiguresExactly(row: Row, offset: nat, numbers: Numbers)
    ensures var figures := FiguresOf(row, offset, numbers);
            figures.maximum == NumberIn(row, 6 + offset, numbers) && figures.requested == NumberIn(row, 7 + offset, numbers)
            && figures.allocation == NumberIn(row, 8 + offset, numbers)
            && (figures.fail <==> 8 + offset in row && Fold(Trim(row[8 + offset])) == "fail")
  {
    hide Trim;
    TrimsNothing();
  }

  lemma SaysOne(row: Row, column: nat)
    ensures forall text :: Says(row, column, text) <==> text == Trim(Value(row, column))
  {
    hide Trim;
    TrimsNothing();
  }

  /** Main result: a row begins a campaign when its kind says so; then a row with a label extends the last campaign by it
      with the figures in its columns, and changes no other; any other row changes nothing. */
  lemma RowExactly(campaigns: seq<OpenCampaign>, row: Row, offset: nat, numbers: Numbers, key: string)
    ensures var after := ReadRow(campaigns, row, offset, numbers);
            var begun := if Begins(row, offset) then campaigns + [Started(row, offset)] else campaigns;
            |after| == |begun| && (forall i :: 0 <= i < |begun| - 1 ==> after[i] == begun[i])
            && forall frame :: Says(row, 3 + offset, frame) && begun != [] ==>
                 if Clock(frame) then
                   Extends(begun[|begun| - 1], after[|begun| - 1], frame, NumberIn(row, 6 + offset, numbers),
                     NumberIn(row, 7 + offset, numbers), NumberIn(row, 8 + offset, numbers),
                     8 + offset in row && Fold(Trim(row[8 + offset])) == "fail", key)
                 else after == begun
  {
    hide Begins, IsHeader, IsFrame, FiguresOf, AddFrame, Extends, Started, Trim, Clock, NumberIn;
    BeginsExactly(row, offset);
    FiguresExactly(row, offset, numbers);
    TrimsNothing();
    var frame := FrameOf(row, offset);
    ClockExactly(frame);
    SaysOne(row, 3 + offset);
    var begun := if IsHeader(row, offset) then campaigns + [Started(row, offset)] else campaigns;
    if begun != [] { ExtendsExactly(begun[|begun| - 1], frame, FiguresOf(row, offset, numbers), key); }
  }

  // ---- the model of a campaign ----

  /** A sum over the groups or the allocations, from the first. */
  function SumOf(values: seq<int>): int { if values == [] then 0 else values[0] + SumOf(values[1..]) }

  lemma {:induction false} SumAppend(values: seq<int>, last: int)
    ensures SumOf(values + [last]) == SumOf(values) + last
  {
    if values == [] {
      assert values + [last] == [last];
    } else {
      SumAppend(values[1..], last);
      assert (values + [last])[1..] == values[1..] + [last];
    }
  }

  function Asked(groups: seq<Group>): (r: seq<int>)
    ensures |r| == |groups| && forall i :: 0 <= i < |r| ==> r[i] == groups[i].requested
  {
    seq(|groups|, i requires 0 <= i < |groups| => groups[i].requested)
  }

  function Given(entries: Entries<int>): (r: seq<int>)
    ensures |r| == |entries| && forall i :: 0 <= i < |r| ==> r[i] == entries[i].1
  {
    seq(|entries|, i requires 0 <= i < |entries| => entries[i].1)
  }

  lemma {:induction false} RequestedExactly(groups: seq<Group>)
    ensures Requested(groups) == SumOf(Asked(groups))
  {
    hide SumOf;
    var asked := Asked(groups);
    if groups == [] {
      assert asked == [] && SumOf([]) == 0 by { NoSum(); }
    } else {
      var n := |groups| - 1;
      RequestedExactly(groups[..n]);
      assert asked == Asked(groups[..n]) + [groups[n].requested];
      SumAppend(Asked(groups[..n]), groups[n].requested);
    }
  }

  lemma NoSum()
    ensures SumOf([]) == 0
  {
  }

  lemma {:induction false} TotalExactly(entries: Entries<int>)
    ensures Total(entries) == SumOf(Given(entries))
  {
    hide SumOf;
    var given := Given(entries);
    if entries == [] {
      assert given == [] && SumOf([]) == 0 by { NoSum(); }
    } else {
      var n := |entries| - 1;
      TotalExactly(entries[..n]);
      assert given == Given(entries[..n]) + [entries[n].1];
      SumAppend(Given(entries[..n]), entries[n].1);
    }
  }

  /** The model keeps the campaign as it is, with one schedule for the day; the requested figure is the sum over the groups,
      and the sum of the allocations where that is 0. */
  lemma ModelExactly(c: OpenCampaign, dateKey: string, order: nat)
    ensures var model := ToModel(c, dateKey, order);
            model.name == c.name && model.kind == c.kind && model.order == order && |model.schedules| == 1
            && var day, asked := model.schedules[0], SumOf(Asked(c.groups));
               day.dateKey == dateKey && day.frames == c.frames && day.perFrame == c.perFrame && day.groups == c.groups
               && (asked != 0 ==> day.requested == asked) && (asked == 0 ==> day.requested == SumOf(Given(c.perFrame)))
  {
    hide SumOf, Requested, Total;
    RequestedExactly(c.groups);
    TotalExactly(c.perFrame);
  }
}
