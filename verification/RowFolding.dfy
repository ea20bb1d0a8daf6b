/** Folding the rows of a VERIFY sheet into campaigns, groups and frames for one day.

    How a cell's text reads as a number is an input. */
module RowFolding {
  import opened Dictionaries
  import opened Optional
  import opened Text
  import opened VerifyModels

  /** The texts of one row, by column number. */
  type Row = map<nat, string>

  type Numbers = string -> Option<int>

  function Value(row: Row, column: nat): string { if column in row then row[column] else "" }

  function KindOf(row: Row, offset: nat): string { Trim(Value(row, 2 + offset)) }

  predicate IsHeader(row: Row, offset: nat) { KindOf(row, offset) == "Spot" || KindOf(row, offset) == "Duration" }

  function FrameOf(row: Row, offset: nat): string { Trim(Value(row, 3 + offset)) }

  /** One or two digits, a colon, two digits, and whatever follows. */
  predicate IsFrame(s: string) {
    (|s| >= 4 && IsDigit(s[0]) && s[1] == ':' && IsDigit(s[2]) && IsDigit(s[3]))
    || (|s| >= 5 && IsDigit(s[0]) && IsDigit(s[1]) && s[2] == ':' && IsDigit(s[3]) && IsDigit(s[4]))
  }

  /** The figures beside a frame. */
  datatype Figures = Figures(maximum: Option<int>, requested: Option<int>, allocation: Option<int>, fail: bool)

  function FiguresOf(row: Row, offset: nat, numbers: Numbers): Figures {
    Figures(numbers(Value(row, 6 + offset)), numbers(Value(row, 7 + offset)), numbers(Value(row, 8 + offset)),
      Fold(Trim(Value(row, 8 + offset))) == "fail")
  }

  datatype OpenCampaign = OpenCampaign(
    name: string, kind: string, frames: seq<string>, perFrame: Entries<int>, groups: seq<Group>, hasFail: bool)

  function Started(row: Row, offset: nat): OpenCampaign {
    OpenCampaign(Trim(Value(row, 1 + offset)), KindOf(row, offset), [], [], [], false)
  }

  /** A requested figure, or a maximum in a Spot campaign whose last group is in use, opens a group. */
  predicate OpensGroup(c: OpenCampaign, figures: Figures) {
    figures.requested.Some?
    || (c.kind == "Spot" && figures.maximum.Some? && c.groups != [] && c.groups[|c.groups| - 1].frames != [])
    || c.groups == []
  }

  function GroupsFor(c: OpenCampaign, figures: Figures): (groups: seq<Group>)
    ensures groups != []
  {
    if OpensGroup(c, figures) then
      c.groups + [Group(if figures.requested.Some? then figures.requested.value else 0, figures.maximum, [], [])]
    else c.groups
  }

  function Entered(entries: Entries<int>, frame: string, figures: Figures): Entries<int> {
    if figures.allocation.Some? then Put(entries, frame, figures.allocation.value, Fold) else entries
  }

  function Filled(group: Group, frame: string, figures: Figures): Group {
    Group(group.requested, if figures.maximum.Some? && group.maximum.None? then figures.maximum else group.maximum,
      group.frames + [frame], Entered(group.perFrame, frame, figures))
  }

  function AddFrame(c: OpenCampaign, frame: string, figures: Figures): OpenCampaign {
    var groups := GroupsFor(c, figures);
    var last := |groups| - 1;
    c.(frames := c.frames + [frame], perFrame := Entered(c.perFrame, frame, figures),
       groups := groups[last := Filled(groups[last], frame, figures)],
       hasFail := c.hasFail || (figures.allocation.None? && figures.fail))
  }

  /** The frame of a row goes to the last campaign. */
  function AddRow(begun: seq<OpenCampaign>, row: Row, offset: nat, numbers: Numbers): seq<OpenCampaign> {
    if begun == [] || !IsFrame(FrameOf(row, offset)) then begun
    else begun[|begun| - 1 := AddFrame(begun[|begun| - 1], FrameOf(row, offset), FiguresOf(row, offset, numbers))]
  }

  function ReadRow(campaigns: seq<OpenCampaign>, row: Row, offset: nat, numbers: Numbers): seq<OpenCampaign> {
    AddRow(if IsHeader(row, offset) then campaigns + [Started(row, offset)] else campaigns, row, offset, numbers)
  }

  function ReadRows(rows: seq<Row>, offset: nat, numbers: Numbers): seq<OpenCampaign> {
    if rows == [] then []
    else ReadRow(ReadRows(rows[..|rows| - 1], offset, numbers), rows[|rows| - 1], offset, numbers)
  }

  function Total(entries: Entries<int>): int {
    if entries == [] then 0 else Total(entries[..|entries| - 1]) + entries[|entries| - 1].1
  }

  function Requested(groups: seq<Group>): int {
    if groups == [] then 0 else Requested(groups[..|groups| - 1]) + groups[|groups| - 1].requested
  }

  function ToModel(c: OpenCampaign, dateKey: string, order: nat): Campaign {
    var requested := Requested(c.groups);
    Campaign(c.name, c.kind, order,
      [Schedule(dateKey, if requested == 0 then Total(c.perFrame) else requested, c.frames, c.perFrame, c.groups)])
  }

  function Models(campaigns: seq<OpenCampaign>, dateKey: string): (r: seq<Campaign>)
    ensures |r| == |campaigns| && forall i :: 0 <= i < |r| ==> r[i] == ToModel(campaigns[i], dateKey, i + 1)
  {
    seq(|campaigns|, i requires 0 <= i < |campaigns| => ToModel(campaigns[i], dateKey, i + 1))
  }

  // ---- every frame lands in exactly one campaign ----

  /** The rows that begin a campaign, in order. */
  function Headers(rows: seq<Row>, offset: nat): (r: seq<nat>)
    ensures forall h :: h in r ==> h < |rows| && IsHeader(rows[h], offset)
  {
    if rows == [] then []
    else
      var n := |rows| - 1;
      Headers(rows[..n], offset) + if IsHeader(rows[n], offset) then [n] else []
  }

  /** The frame labels of the rows from `lo` up to `hi`. */
  function Frames(rows: seq<Row>, offset: nat, lo: nat, hi: nat): seq<string>
    requires lo <= hi <= |rows|
    decreases hi
  {
    if lo == hi then []
    else
      Frames(rows, offset, lo, hi - 1)
      + if IsFrame(FrameOf(rows[hi - 1], offset)) then [FrameOf(rows[hi - 1], offset)] else []
  }

  /** Where the `k`-th campaign ends: at the next header, or at the end of the rows. */
  function EndOf(rows: seq<Row>, offset: nat, k: nat): (e: nat)
    requires k < |Headers(rows, offset)|
    ensures e <= |rows|
  {
    var headers := Headers(rows, offset);
    if k + 1 < |headers| then (assert headers[k + 1] in headers; headers[k + 1]) else |rows|
  }

  lemma HeadersNext(rows: seq<Row>, offset: nat)
    requires rows != []
    ensures var n := |rows| - 1;
            Headers(rows, offset) == Headers(rows[..n], offset) + if IsHeader(rows[n], offset) then [n] else []
  {
    hide IsHeader;
  }

  lemma {:induction false} HeadersGrow(rows: seq<Row>, offset: nat)
    ensures var h := Headers(rows, offset); forall i, j :: 0 <= i < j < |h| ==> h[i] < h[j]
  {
    hide IsHeader, Headers;
    if rows == [] {
      assert Headers(rows, offset) == [] by { NoHeaders(offset); }
    } else {
      var n := |rows| - 1;
      HeadersGrow(rows[..n], offset);
      HeadersNext(rows, offset);
      var before := Headers(rows[..n], offset);
      forall i | 0 <= i < |before| ensures before[i] < n { assert before[i] in before; }
    }
  }

  lemma NoHeaders(offset: nat)
    ensures Headers([], offset) == []
  {
  }

  lemma {:induction false} FramesPrefix(rows: seq<Row>, offset: nat, n: nat, lo: nat, hi: nat)
    requires lo <= hi <= n <= |rows|
    ensures Frames(rows[..n], offset, lo, hi) == Frames(rows, offset, lo, hi)
    decreases hi
  {
    hide IsFrame, FrameOf;
    if lo < hi { FramesPrefix(rows, offset, n, lo, hi - 1); }
  }

  lemma {:induction false} FramesJoin(rows: seq<Row>, offset: nat, lo: nat, mid: nat, hi: nat)
    requires lo <= mid <= hi <= |rows|
    ensures Frames(rows, offset, lo, hi) == Frames(rows, offset, lo, mid) + Frames(rows, offset, mid, hi)
    decreases hi
  {
    hide IsFrame, FrameOf;
    if mid < hi { FramesJoin(rows, offset, lo, mid, hi - 1); }
  }

  lemma FramesNext(rows: seq<Row>, offset: nat, lo: nat)
    requires rows != [] && lo < |rows|
    ensures var n := |rows| - 1;
            Frames(rows, offset, lo, |rows|) ==
              Frames(rows[..n], offset, lo, n) + if IsFrame(FrameOf(rows[n], offset)) then [FrameOf(rows[n], offset)] else []
  {
    hide IsFrame, FrameOf;
    FramesPrefix(rows, offset, |rows| - 1, lo, |rows| - 1);
  }

  /** Campaign `k` has the name and kind of its header and the frames of its rows. */
  predicate Section(rows: seq<Row>, offset: nat, k: nat, c: OpenCampaign)
    requires k < |Headers(rows, offset)|
  {
    var h := Headers(rows, offset)[k];
    h in Headers(rows, offset) && h <= EndOf(rows, offset, k)
    && c.name == Trim(Value(rows[h], 1 + offset)) && c.kind == KindOf(rows[h], offset)
    && c.frames == Frames(rows, offset, h, EndOf(rows, offset, k))
  }

  predicate Sections(rows: seq<Row>, offset: nat, campaigns: seq<OpenCampaign>) {
    |campaigns| == |Headers(rows, offset)| && forall k :: 0 <= k < |campaigns| ==> Section(rows, offset, k, campaigns[k])
  }

  lemma ReadRowShape(campaigns: seq<OpenCampaign>, row: Row, offset: nat, numbers: Numbers)
    ensures var after := ReadRow(campaigns, row, offset, numbers);
            var begun := if IsHeader(row, offset) then campaigns + [Started(row, offset)] else campaigns;
            |after| == |begun|
            && forall k :: 0 <= k < |after| ==>
                 after[k].name == begun[k].name && after[k].kind == begun[k].kind
                 && after[k].frames == begun[k].frames
                      + if k == |after| - 1 && IsFrame(FrameOf(row, offset)) then [FrameOf(row, offset)] else []
  {
    hide IsHeader, IsFrame, FrameOf, GroupsFor, Filled, Entered, FiguresOf, Started;
  }

  lemma StartedEmpty(row: Row, offset: nat)
    ensures Started(row, offset).frames == []
  {
  }

  /** One more row: the campaigns before the last are as they were. */
  lemma SectionKept(rows: seq<Row>, offset: nat, k: nat, c: OpenCampaign)
    requires rows != [] && k < |Headers(rows[..|rows| - 1], offset)| && Section(rows[..|rows| - 1], offset, k, c)
    requires k + 1 < |Headers(rows, offset)|
    ensures Section(rows, offset, k, c)
  {
    hide IsFrame, IsHeader, KindOf;
    var n := |rows| - 1;
    var before, after := Headers(rows[..n], offset), Headers(rows, offset);
    assert after[k] == before[k];
    assert EndOf(rows, offset, k) == EndOf(rows[..n], offset, k);
    FramesPrefix(rows, offset, n, before[k], EndOf(rows[..n], offset, k));
  }

  /** One more row without a header: the last campaign takes its frame. */
  lemma SectionGrows(rows: seq<Row>, offset: nat, c: OpenCampaign, c': OpenCampaign)
    requires rows != [] && Headers(rows[..|rows| - 1], offset) != [] && !IsHeader(rows[|rows| - 1], offset)
    requires var k := |Headers(rows[..|rows| - 1], offset)| - 1; Section(rows[..|rows| - 1], offset, k, c)
    requires c'.name == c.name && c'.kind == c.kind
    requires var frame := FrameOf(rows[|rows| - 1], offset); c'.frames == c.frames + if IsFrame(frame) then [frame] else []
    ensures Headers(rows, offset) == Headers(rows[..|rows| - 1], offset)
    ensures Section(rows, offset, |Headers(rows, offset)| - 1, c')
  {
    hide IsFrame, IsHeader, KindOf, FrameOf, Headers, Frames, Trim;
    var n := |rows| - 1;
    HeadersNext(rows, offset);
    var headers := Headers(rows[..n], offset);
    var h := headers[|headers| - 1];
    assert h in headers && rows[..n][h] == rows[h];
    FramesNext(rows, offset, h);
  }

  /** A header row begins a campaign, and may already hold a frame. */
  lemma SectionBegins(rows: seq<Row>, offset: nat, c: OpenCampaign)
    requires rows != [] && IsHeader(rows[|rows| - 1], offset)
    requires var row := rows[|rows| - 1];
             c.name == Started(row, offset).name && c.kind == Started(row, offset).kind
             && c.frames == if IsFrame(FrameOf(row, offset)) then [FrameOf(row, offset)] else []
    ensures Headers(rows, offset) != [] && Section(rows, offset, |Headers(rows, offset)| - 1, c)
  {
    hide IsFrame, IsHeader, KindOf;
    var n := |rows| - 1;
    assert Frames(rows, offset, n, n) == [];
  }

  /** Main result: the rows fall into one campaign per header, each with exactly the frames of its own rows, in row order. */
  lemma {:induction false} RowsAreSectioned(rows: seq<Row>, offset: nat, numbers: Numbers)
    ensures Sections(rows, offset, ReadRows(rows, offset, numbers))
  {
    hide Section, ReadRow, IsHeader, IsFrame, FrameOf, Started;
    if rows != [] {
      var n := |rows| - 1;
      var before, row := ReadRows(rows[..n], offset, numbers), rows[n];
      var after := ReadRow(before, row, offset, numbers);
      RowsAreSectioned(rows[..n], offset, numbers);
      ReadRowShape(before, row, offset, numbers);
      StartedEmpty(row, offset);
      var headers := Headers(rows, offset);
      forall k | 0 <= k < |after| ensures Section(rows, offset, k, after[k]) {
        if k + 1 < |after| {
          SectionKept(rows, offset, k, before[k]);
          SameSection(rows, offset, k, before[k], after[k]);
        } else if IsHeader(row, offset) {
          SectionBegins(rows, offset, after[k]);
        } else {
          SectionGrows(rows, offset, before[k], after[k]);
        }
      }
    }
  }

  lemma SameSection(rows: seq<Row>, offset: nat, k: nat, c: OpenCampaign, c': OpenCampaign)
    requires k < |Headers(rows, offset)| && Section(rows, offset, k, c)
    requires c'.name == c.name && c'.kind == c.kind && c'.frames == c.frames
    ensures Section(rows, offset, k, c')
  {
  }

  function AllFrames(campaigns: seq<OpenCampaign>): seq<string> {
    if campaigns == [] then [] else AllFrames(campaigns[..|campaigns| - 1]) + campaigns[|campaigns| - 1].frames
  }

  /** Conservation: the campaigns' frames, one after the other, are the frames of all rows from the first header on. */
  lemma FramesConserved(rows: seq<Row>, offset: nat, numbers: Numbers)
    ensures var headers := Headers(rows, offset);
            AllFrames(ReadRows(rows, offset, numbers)) ==
              if headers == [] then [] else (assert headers[0] in headers; Frames(rows, offset, headers[0], |rows|))
  {
    hide ReadRows, Section, Frames, Headers;
    RowsAreSectioned(rows, offset, numbers);
    var campaigns := ReadRows(rows, offset, numbers);
    if campaigns != [] {
      SectionsJoin(rows, offset, campaigns, |campaigns|);
      assert campaigns[..|campaigns|] == campaigns;
    }
  }

  lemma {:induction false} SectionsJoin(rows: seq<Row>, offset: nat, campaigns: seq<OpenCampaign>, k: nat)
    requires Sections(rows, offset, campaigns) && 1 <= k <= |campaigns|
    ensures var headers := Headers(rows, offset);
            headers[0] in headers && headers[0] <= EndOf(rows, offset, k - 1)
            && AllFrames(campaigns[..k]) == Frames(rows, offset, headers[0], EndOf(rows, offset, k - 1))
  {
    hide IsFrame, IsHeader, FrameOf, Frames;
    var headers := Headers(rows, offset);
    HeadersGrow(rows, offset);
    assert campaigns[..k][..k - 1] == campaigns[..k - 1];
    assert Section(rows, offset, k - 1, campaigns[k - 1]);
    if k > 1 {
      SectionsJoin(rows, offset, campaigns, k - 1);
      FramesJoin(rows, offset, headers[0], headers[k - 1], EndOf(rows, offset, k - 1));
    } else {
      assert AllFrames(campaigns[..0]) == [];
    }
  }

  // ---- groups ----

  function GroupFrames(groups: seq<Group>): seq<string> {
    if groups == [] then [] else GroupFrames(groups[..|groups| - 1]) + groups[|groups| - 1].frames
  }

  function GroupEntries(groups: seq<Group>): Entries<int> {
    if groups == [] then [] else GroupEntries(groups[..|groups| - 1]) + groups[|groups| - 1].perFrame
  }

  /** Groups are non-empty, contiguous runs of the campaign's frames, and only frames have allocations. */
  predicate GroupsOk(c: OpenCampaign) {
    (forall g :: g in c.groups ==> g.frames != []) && GroupFrames(c.groups) == c.frames
    && forall e :: e in c.perFrame ==> e.0 in c.frames
  }

  lemma LastGroup(groups: seq<Group>, g: Group)
    requires groups != []
    ensures var last := |groups| - 1;
            GroupFrames(groups[last := g]) == GroupFrames(groups[..last]) + g.frames
            && GroupEntries(groups[last := g]) == GroupEntries(groups[..last]) + g.perFrame
  {
    var last := |groups| - 1;
    assert groups[last := g][..last] == groups[..last];
  }

  lemma GroupsForFrames(c: OpenCampaign, figures: Figures)
    ensures var groups := GroupsFor(c, figures);
            GroupFrames(groups) == GroupFrames(c.groups) && GroupEntries(groups) == GroupEntries(c.groups)
            && forall i :: 0 <= i < |groups| - 1 ==> groups[i] in c.groups
  {
    hide OpensGroup;
    var groups := GroupsFor(c, figures);
    if OpensGroup(c, figures) { assert groups[..|groups| - 1] == c.groups; }
  }

  lemma AddFrameGroups(c: OpenCampaign, frame: string, figures: Figures)
    requires GroupsOk(c)
    ensures GroupsOk(AddFrame(c, frame, figures))
  {
    hide GroupsFor, OpensGroup, Entered;
    var groups := GroupsFor(c, figures);
    var last := |groups| - 1;
    var filled := Filled(groups[last], frame, figures);
    GroupsForFrames(c, figures);
    LastGroup(groups, filled);
    LastGroup(groups, groups[last]);
    assert groups[last := groups[last]] == groups;
    assert GroupFrames(groups[..last]) + (groups[last].frames + [frame]) == (GroupFrames(groups[..last]) + groups[last].frames) + [frame];
    EnteredKeys(c, frame, figures);
  }

  lemma EnteredKeys(c: OpenCampaign, frame: string, figures: Figures)
    requires forall e :: e in c.perFrame ==> e.0 in c.frames
    ensures forall e :: e in Entered(c.perFrame, frame, figures) ==> e.0 in c.frames + [frame]
  {
    hide Put;
    if figures.allocation.Some? {
      forall e | e in Entered(c.perFrame, frame, figures) ensures e.0 in c.frames + [frame] {
        PutKeys(c.perFrame, frame, figures.allocation.value, Fold, e);
        if e.0 != frame {
          var i :| 0 <= i < |c.perFrame| && c.perFrame[i].0 == e.0;
          assert c.perFrame[i] in c.perFrame;
        }
      }
    }
  }

  /** Every campaign's groups split its frames into contiguous, non-empty runs. */
  lemma {:induction false} GroupsSplitFrames(rows: seq<Row>, offset: nat, numbers: Numbers)
    ensures forall c :: c in ReadRows(rows, offset, numbers) ==> GroupsOk(c)
  {
    hide GroupsOk, AddFrame, IsHeader, IsFrame, FrameOf, Started, FiguresOf;
    if rows != [] {
      var n := |rows| - 1;
      var before, row := ReadRows(rows[..n], offset, numbers), rows[n];
      GroupsSplitFrames(rows[..n], offset, numbers);
      var begun := if IsHeader(row, offset) then before + [Started(row, offset)] else before;
      assert GroupsOk(Started(row, offset)) by { StartedOk(row, offset); }
      if begun != [] { AddFrameGroups(begun[|begun| - 1], FrameOf(row, offset), FiguresOf(row, offset, numbers)); }
    }
  }

  lemma StartedOk(row: Row, offset: nat)
    ensures GroupsOk(Started(row, offset)) && Allocated(Started(row, offset))
  {
  }

  // ---- allocations ----

  predicate DistinctFrames(frames: seq<string>) { forall i, j :: 0 <= i < j < |frames| ==> Fold(frames[i]) != Fold(frames[j]) }

  /** The campaign's allocations are its groups' allocations, one after the other. */
  predicate AllocationsSplit(c: OpenCampaign) { c.perFrame == GroupEntries(c.groups) }

  lemma FreshKey(entries: Entries<int>, frames: seq<string>, frame: string)
    requires DistinctFrames(frames + [frame]) && forall e :: e in entries ==> e.0 in frames
    ensures !HasKey(entries, frame, Fold)
  {
    hide Fold;
    forall i | 0 <= i < |entries| ensures Fold(entries[i].0) != Fold(frame) {
      assert entries[i] in entries;
      var j :| 0 <= j < |frames| && frames[j] == entries[i].0;
      assert (frames + [frame])[j] == frames[j] && (frames + [frame])[|frames|] == frame;
    }
  }

  lemma {:induction false} EntryInGroups(groups: seq<Group>, g: Group, e: (string, int))
    requires g in groups && e in g.perFrame
    ensures e in GroupEntries(groups)
  {
    var last := groups[|groups| - 1];
    if g != last { EntryInGroups(groups[..|groups| - 1], g, e); }
  }

  lemma AddFrameAllocations(c: OpenCampaign, frame: string, figures: Figures)
    requires GroupsOk(c) && AllocationsSplit(c) && DistinctFrames(c.frames + [frame])
    ensures AllocationsSplit(AddFrame(c, frame, figures))
  {
    hide GroupsFor, OpensGroup, HasKey, Put, DistinctFrames;
    var groups := GroupsFor(c, figures);
    var last := |groups| - 1;
    var filled := Filled(groups[last], frame, figures);
    GroupsForFrames(c, figures);
    LastGroup(groups, filled);
    LastGroup(groups, groups[last]);
    assert groups[last := groups[last]] == groups;
    FreshKey(c.perFrame, c.frames, frame);
    forall e | e in groups[last].perFrame ensures e.0 in c.frames { EntryInGroups(groups, groups[last], e); }
    FreshKey(groups[last].perFrame, c.frames, frame);
    if figures.allocation.Some? {
      var entry := (frame, figures.allocation.value);
      PutNew(c.perFrame, entry.0, entry.1, Fold);
      PutNew(groups[last].perFrame, entry.0, entry.1, Fold);
      var before := GroupEntries(groups[..last]);
      assert before + (groups[last].perFrame + [entry]) == (before + groups[last].perFrame) + [entry];
    }
  }

  predicate Allocated(c: OpenCampaign) { DistinctFrames(c.frames) ==> AllocationsSplit(c) }

  lemma AddFrameAllocated(c: OpenCampaign, frame: string, figures: Figures)
    requires GroupsOk(c) && Allocated(c)
    ensures Allocated(AddFrame(c, frame, figures))
  {
    hide GroupsOk, AllocationsSplit, GroupsFor, Filled, Entered;
    if DistinctFrames(c.frames + [frame]) {
      assert forall i :: 0 <= i < |c.frames| ==> (c.frames + [frame])[i] == c.frames[i];
      AddFrameAllocations(c, frame, figures);
    }
  }

  lemma {:induction false} RowsAllocated(rows: seq<Row>, offset: nat, numbers: Numbers)
    ensures forall c :: c in ReadRows(rows, offset, numbers) ==> Allocated(c)
  {
    hide GroupsOk, Allocated, AddFrame, IsHeader, IsFrame, FrameOf, Started, FiguresOf;
    if rows != [] {
      var n := |rows| - 1;
      var before, row := ReadRows(rows[..n], offset, numbers), rows[n];
      RowsAllocated(rows[..n], offset, numbers);
      GroupsSplitFrames(rows[..n], offset, numbers);
      var begun := if IsHeader(row, offset) then before + [Started(row, offset)] else before;
      assert GroupsOk(Started(row, offset)) && Allocated(Started(row, offset)) by { StartedOk(row, offset); }
      if begun != [] { AddFrameAllocated(begun[|begun| - 1], FrameOf(row, offset), FiguresOf(row, offset, numbers)); }
    }
  }

  function GroupTotals(groups: seq<Group>): int {
    if groups == [] then 0 else GroupTotals(groups[..|groups| - 1]) + Total(groups[|groups| - 1].perFrame)
  }

  lemma {:induction false} TotalConcat(a: Entries<int>, b: Entries<int>)
    ensures Total(a + b) == Total(a) + Total(b)
  {
    if b == [] {
      assert a + b == a;
    } else {
      assert (a + b)[..|a + b| - 1] == a + b[..|b| - 1];
      TotalConcat(a, b[..|b| - 1]);
    }
  }

  lemma {:induction false} GroupTotalsAre(groups: seq<Group>)
    ensures GroupTotals(groups) == Total(GroupEntries(groups))
  {
    hide Total;
    if groups != [] {
      GroupTotalsAre(groups[..|groups| - 1]);
      TotalConcat(GroupEntries(groups[..|groups| - 1]), groups[|groups| - 1].perFrame);
    } else {
      assert Total([]) == 0 by { NoTotal(); }
    }
  }

  lemma NoTotal()
    ensures Total([]) == 0
  {
  }

  /** With distinct labels the groups' allocations add up to the campaign's. */
  lemma AllocationsAddUp(rows: seq<Row>, offset: nat, numbers: Numbers, c: OpenCampaign)
    requires c in ReadRows(rows, offset, numbers) && DistinctFrames(c.frames)
    ensures Total(c.perFrame) == GroupTotals(c.groups) && c.perFrame == GroupEntries(c.groups)
  {
    hide ReadRows, Total, GroupTotals, DistinctFrames;
    RowsAllocated(rows, offset, numbers);
    GroupTotalsAre(c.groups);
  }
}
