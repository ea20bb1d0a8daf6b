/** `ParseDay` as it is written: campaigns and groups are objects that the loop over the rows fills in place. */
module RowReader {
  import opened Dictionaries
  import opened Optional
  import opened RowFolding
  import opened Text
  import opened VerifyModels

  class MutableGroup {
    var requested: int
    var maximum: Option<int>
    var frames: seq<string>
    var perFrame: Entries<int>

    constructor (requested: int, maximum: Option<int>)
      ensures View() == Group(requested, maximum, [], [])
    {
      this.requested, this.maximum, frames, perFrame := requested, maximum, [], [];
    }

    function View(): Group
      reads this
    {
      Group(requested, maximum, frames, perFrame)
    }

    method Fill(frame: string, figures: Figures)
      modifies this
      ensures View() == Filled(old(View()), frame, figures)
    {
      if figures.maximum.Some? && maximum.None? { maximum := figures.maximum; }
      frames := frames + [frame];
      if figures.allocation.Some? { perFrame := Put(perFrame, frame, figures.allocation.value, Fold); }
    }
  }

  ghost predicate Apart(groups: seq<MutableGroup>) { forall i, j :: 0 <= i < j < |groups| ==> groups[i] != groups[j] }

  ghost function Views(groups: seq<MutableGroup>): (r: seq<Group>)
    reads groups
    ensures |r| == |groups| && forall i :: 0 <= i < |r| ==> r[i] == groups[i].View()
  {
    seq(|groups|, i requires 0 <= i < |groups| reads groups => groups[i].View())
  }

  class MutableCampaign {
    const name: string
    const kind: string
    var frames: seq<string>
    var perFrame: Entries<int>
    var groups: seq<MutableGroup>
    var hasFail: bool

    constructor (name: string, kind: string)
      ensures groups == [] && View() == OpenCampaign(name, kind, [], [], [], false)
    {
      this.name, this.kind := name, kind;
      frames, perFrame, groups, hasFail := [], [], [], false;
      new;
      assert Views([]) == [];
    }

    ghost function View(): OpenCampaign
      reads this, groups
    {
      OpenCampaign(name, kind, frames, perFrame, Views(groups), hasFail)
    }

    /** A new group is opened when the figures ask for one. */
    method OpenGroup(figures: Figures)
      requires Apart(groups)
      modifies this`groups
      ensures Apart(groups) && groups != [] && (forall g :: g in groups ==> g in old(groups) || fresh(g))
      ensures Views(groups) == GroupsFor(old(View()), figures)
    {
      ghost var before := View();
      assert groups != [] ==> before.groups[|groups| - 1] == groups[|groups| - 1].View();
      if figures.requested.Some? || (kind == "Spot" && figures.maximum.Some? && |groups| > 0 && |groups[|groups| - 1].frames| > 0) {
        var group := new MutableGroup(if figures.requested.Some? then figures.requested.value else 0, figures.maximum);
        groups := groups + [group];
      }
      if |groups| == 0 {
        var group := new MutableGroup(0, figures.maximum);
        groups := groups + [group];
      }
      assert Views(groups) == GroupsFor(before, figures);
    }

    /** What the loop does with one frame row of the current campaign. */
    method Add(frame: string, figures: Figures)
      requires Apart(groups)
      modifies this, groups
      ensures Apart(groups) && (forall g :: g in groups ==> g in old(groups) || fresh(g))
      ensures View() == AddFrame(old(View()), frame, figures)
    {
      hide GroupsFor, Filled, Entered, Apart;
      ghost var before := View();
      OpenGroup(figures);
      ghost var after := Views(groups);
      frames := frames + [frame];
      var last := |groups| - 1;
      assert groups[last] in groups;
      groups[last].Fill(frame, figures);
      assert Views(groups) == after[last := Filled(after[last], frame, figures)];
      Note(frame, figures);
    }

    method Note(frame: string, figures: Figures)
      modifies this`perFrame, this`hasFail
      ensures perFrame == Entered(old(perFrame), frame, figures)
      ensures hasFail == (old(hasFail) || (figures.allocation.None? && figures.fail))
    {
      hide Put;
      if figures.allocation.Some? {
        perFrame := Put(perFrame, frame, figures.allocation.value, Fold);
      } else if figures.fail {
        hasFail := true;
      }
    }

    method Close(dateKey: string, order: nat) returns (model: Campaign)
      ensures model == ToModel(View(), dateKey, order)
    {
      var closed: seq<Group> := [];
      for g := 0 to |groups|
        invariant closed == Views(groups)[..g]
      {
        closed := closed + [groups[g].View()];
      }
      assert closed == Views(groups);
      model := ToModel(OpenCampaign(name, kind, frames, perFrame, closed, hasFail), dateKey, order);
    }
  }

  ghost function Footprint(c: MutableCampaign): (r: set<object>)
    reads c
    ensures c in r && forall g :: g in c.groups ==> g in r
  {
    {c as object} + set g: MutableGroup | g in c.groups :: g as object
  }

  ghost predicate Separate(campaigns: seq<MutableCampaign>)
    reads campaigns
  {
    (forall i :: 0 <= i < |campaigns| ==> Apart(campaigns[i].groups))
    && forall i, j :: 0 <= i < j < |campaigns| ==> Footprint(campaigns[i]) !! Footprint(campaigns[j])
  }

  ghost function Reach(campaigns: seq<MutableCampaign>): (r: set<object>)
    reads campaigns
    ensures forall i :: 0 <= i < |campaigns| ==> Footprint(campaigns[i]) <= r
  {
    if campaigns == [] then {} else Reach(campaigns[..|campaigns| - 1]) + Footprint(campaigns[|campaigns| - 1])
  }

  lemma {:induction false} InReach(campaigns: seq<MutableCampaign>, o: object) returns (i: nat)
    requires o in Reach(campaigns)
    ensures i < |campaigns| && o in Footprint(campaigns[i])
  {
    hide Footprint;
    var last := |campaigns| - 1;
    if o in Footprint(campaigns[last]) { i := last; } else { i := InReach(campaigns[..last], o); }
  }

  ghost function AllViews(campaigns: seq<MutableCampaign>): (r: seq<OpenCampaign>)
    reads campaigns, Reach(campaigns)
    ensures |r| == |campaigns| && forall i :: 0 <= i < |r| ==> r[i] == campaigns[i].View()
  {
    seq(|campaigns|, i requires 0 <= i < |campaigns| reads campaigns, Reach(campaigns) => campaigns[i].View())
  }

  /** A campaign whose objects nobody wrote to looks the same. */
  twostate lemma Untouched(c: MutableCampaign)
    requires unchanged(c) && forall g :: g in c.groups ==> unchanged(g)
    ensures c.View() == old(c.View()) && Footprint(c) == old(Footprint(c))
  {
    assert forall g :: g in c.groups ==> g.View() == old(g.View());
    assert Views(c.groups) == old(Views(c.groups));
  }

  twostate lemma ReachGrows(campaigns: seq<MutableCampaign>)
    requires forall i :: 0 <= i < |campaigns| ==> forall o :: o in Footprint(campaigns[i]) ==> o in old(Footprint(campaigns[i])) || fresh(o)
    ensures forall o :: o in Reach(campaigns) ==> o in old(Reach(campaigns)) || fresh(o)
  {
    hide Footprint, Reach;
    forall o | o in Reach(campaigns) ensures o in old(Reach(campaigns)) || fresh(o) {
      var i := InReach(campaigns, o);
      assert old(Footprint(campaigns[i])) <= old(Reach(campaigns));
    }
  }

  /** A frame goes to the last campaign; the others are not touched. */
  method AddToLast(campaigns: seq<MutableCampaign>, frame: string, figures: Figures)
    requires campaigns != [] && Separate(campaigns)
    modifies Reach(campaigns)
    ensures Separate(campaigns) && forall o :: o in Reach(campaigns) ==> o in old(Reach(campaigns)) || fresh(o)
    ensures var before := old(AllViews(campaigns));
            AllViews(campaigns) == before[|campaigns| - 1 := AddFrame(before[|campaigns| - 1], frame, figures)]
  {
    hide AddFrame, Reach, Views;
    var last := |campaigns| - 1;
    var current := campaigns[last];
    assert Footprint(current) <= Reach(campaigns);
    label Start:
    current.Add(frame, figures);
    forall i | 0 <= i < last
      ensures campaigns[i].View() == old(campaigns[i].View()) && Footprint(campaigns[i]) == old(Footprint(campaigns[i]))
    {
      assert old(Footprint(campaigns[i]) !! Footprint(current));
      assert campaigns[i] != current;
      assert forall g :: g in campaigns[i].groups ==> g !in old(current.groups);
      Untouched@Start(campaigns[i]);
    }
    ReachGrows@Start(campaigns);
  }

  /** A header row puts a new campaign at the end. */
  method StartIn(campaigns: seq<MutableCampaign>, row: Row, offset: nat) returns (after: seq<MutableCampaign>)
    requires Separate(campaigns)
    ensures Separate(after) && after != [] && forall o :: o in Reach(after) ==> o in Reach(campaigns) || fresh(o)
    ensures AllViews(after) == AllViews(campaigns) + [Started(row, offset)]
  {
    hide Trim;
    var campaign := new MutableCampaign(Trim(Value(row, 1 + offset)), KindOf(row, offset));
    after := campaigns + [campaign];
    assert after[..|after| - 1] == campaigns;
    assert Footprint(campaign) == {campaign};
    forall i | 0 <= i < |campaigns| ensures Footprint(campaigns[i]) !! Footprint(campaign) {
      assert Footprint(campaigns[i]) <= Reach(campaigns);
    }
  }

  /** One turn of the loop over the rows. */
  method ReadInto(campaigns: seq<MutableCampaign>, row: Row, offset: nat, numbers: Numbers) returns (after: seq<MutableCampaign>)
    requires Separate(campaigns)
    modifies Reach(campaigns)
    ensures Separate(after) && forall o :: o in Reach(after) ==> o in old(Reach(campaigns)) || fresh(o)
    ensures AllViews(after) == ReadRow(old(AllViews(campaigns)), row, offset, numbers)
  {
    hide AddFrame, IsHeader, IsFrame, FrameOf, FiguresOf, Started, Separate, Reach, AllViews, Footprint, MutableCampaign.View, Views;
    after := campaigns;
    if IsHeader(row, offset) { after := StartIn(campaigns, row, offset); }
    if |after| == 0 { return; }
    var frame := FrameOf(row, offset);
    if !IsFrame(frame) { return; }
    AddToLast(after, frame, FiguresOf(row, offset, numbers));
  }

  method ParseDay(rows: seq<Row>, offset: nat, dateKey: string, numbers: Numbers) returns (models: seq<Campaign>)
    ensures models == Models(ReadRows(rows, offset, numbers), dateKey)
  {
    hide ReadRow, ToModel, Reach, Separate, Footprint;
    var campaigns: seq<MutableCampaign> := [];
    NothingYet();
    for i := 0 to |rows|
      invariant fresh(Reach(campaigns)) && Separate(campaigns)
      invariant AllViews(campaigns) == ReadRows(rows[..i], offset, numbers)
    {
      assert rows[..i + 1][..i] == rows[..i];
      campaigns := ReadInto(campaigns, rows[i], offset, numbers);
    }
    assert rows[..|rows|] == rows;
    models := CloseAll(campaigns, dateKey);
  }

  lemma NothingYet()
    ensures Reach([]) == {} && Separate([]) && AllViews([]) == []
  {
  }

  method CloseAll(campaigns: seq<MutableCampaign>, dateKey: string) returns (models: seq<Campaign>)
    ensures models == Models(AllViews(campaigns), dateKey)
  {
    hide ToModel;
    models := [];
    for k := 0 to |campaigns|
      invariant models == Models(AllViews(campaigns), dateKey)[..k]
    {
      var model := campaigns[k].Close(dateKey, k + 1);
      models := models + [model];
    }
  }
}
