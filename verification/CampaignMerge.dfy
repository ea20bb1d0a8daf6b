/** Merging the campaigns of two days: same name and kind become one, and the second day's candidate gives
    way to the first day's. */
module CampaignMerge {
  import opened Optional
  import opened Text
  import opened VerifyModels

  /** Campaigns with the same key are merged. */
  type Key = (string, string)

  function KeyOf(c: Campaign): Key { (Fold(Trim(c.name)), Fold(c.kind)) }

  /** An entry of the list: its campaign, and which object of the input it is, if it still is one. */
  datatype Item = Item(origin: Option<nat>, campaign: Campaign)

  function Campaigns(items: seq<Item>): (r: seq<Campaign>)
    ensures |r| == |items| && forall i :: 0 <= i < |r| ==> r[i] == items[i].campaign
  {
    seq(|items|, i requires 0 <= i < |items| => items[i].campaign)
  }

  /** `FirstOrDefault` on the key; the length of the list when there is none. */
  function FirstMatch(merged: seq<Campaign>, key: Key): (i: nat)
    ensures i <= |merged| && (i < |merged| ==> KeyOf(merged[i]) == key)
    ensures forall j :: 0 <= j < i ==> KeyOf(merged[j]) != key
  {
    if merged == [] || KeyOf(merged[0]) == key then 0
    else
      var i := FirstMatch(merged[1..], key);
      assert forall j :: 1 <= j < |merged| ==> merged[j] == merged[1..][j - 1];
      i + 1
  }

  function Insert(merged: seq<Item>, item: Item): seq<Item> {
    var i := FirstMatch(Campaigns(merged), KeyOf(item.campaign));
    if i == |merged| then merged + [item]
    else
      var existing := merged[i].campaign;
      merged[i := Item(None, existing.(schedules := existing.schedules + item.campaign.schedules))]
  }

  predicate Rivals(item: Item, campaign: Campaign, one: nat, two: nat) {
    item.origin.Some? && (item.origin.value == one || item.origin.value == two) && Fold(item.campaign.kind) == Fold(campaign.kind)
  }

  predicate AnyRival(merged: seq<Item>, campaign: Campaign, one: nat, two: nat) {
    exists i :: 0 <= i < |merged| && Rivals(merged[i], campaign, one, two)
  }

  /** One turn of the loop for object `k` of the input; `one` and `two` are the candidates. */
  function Turn(merged: seq<Item>, k: nat, campaign: Campaign, one: nat, two: nat): seq<Item> {
    if (k == one || k == two) && AnyRival(merged, campaign, one, two) then merged
    else Insert(merged, Item(Some(k), campaign))
  }

  function Turns(campaigns: seq<Campaign>, one: nat, two: nat): seq<Item> {
    if campaigns == [] then []
    else
      var k := |campaigns| - 1;
      Turn(Turns(campaigns[..k], one, two), k, campaigns[k], one, two)
  }

  lemma NoTurns(one: nat, two: nat)
    ensures Turns([], one, two) == []
  {
  }

  /** `IndexOf` compares records, not objects: the first equal one. */
  method IndexOf(merged: seq<Item>, campaign: Campaign) returns (index: int)
    ensures index == -1 ==> forall j :: 0 <= j < |merged| ==> merged[j].campaign != campaign
    ensures index != -1 ==> 0 <= index < |merged| && merged[index].campaign == campaign
                            && forall j :: 0 <= j < index ==> merged[j].campaign != campaign
  {
    for i := 0 to |merged|
      invariant forall j :: 0 <= j < i ==> merged[j].campaign != campaign
    {
      if merged[i].campaign == campaign { return i; }
    }
    return -1;
  }

  /** The loop over both days. */
  method Merge(first: seq<Campaign>, second: seq<Campaign>, one: nat, two: nat) returns (result: seq<Campaign>)
    requires one < |first| && two < |second|
    ensures result == Campaigns(Turns(first + second, one, |first| + two))
  {
    hide KeyOf, AnyRival, FirstMatch, Turns;
    var campaigns := first + second;
    var other := |first| + two;
    var merged: seq<Item> := [];
    NoTurns(one, other);
    for k := 0 to |campaigns|
      invariant merged == Turns(campaigns[..k], one, other)
    {
      var campaign := campaigns[k];
      assert campaigns[..k + 1] == campaigns[..k] + [campaign];
      TurnsNext(campaigns[..k], campaign, one, other);
      if (k == one || k == other) && AnyRival(merged, campaign, one, other) { continue; }
      var i := FirstMatch(Campaigns(merged), KeyOf(campaign));
      if i == |merged| {
        merged := merged + [Item(Some(k), campaign)];
      } else {
        var existing := merged[i].campaign;
        var index := IndexOf(merged, existing);
        assert Campaigns(merged)[i] == existing && Campaigns(merged)[index] == merged[index].campaign;
        assert index == i;
        merged := merged[index := Item(None, existing.(schedules := existing.schedules + campaign.schedules))];
      }
    }
    assert campaigns[..|campaigns|] == campaigns;
    result := Campaigns(merged);
  }

  // ---- the list as a grouping ----

  /** One campaign joins a list: its schedules go to the campaign of the same key, or it is added. */
  function Joined(campaigns: seq<Campaign>, c: Campaign): seq<Campaign> {
    var i := FirstMatch(campaigns, KeyOf(c));
    if i == |campaigns| then campaigns + [c]
    else campaigns[i := campaigns[i].(schedules := campaigns[i].schedules + c.schedules)]
  }

  function Grouped(campaigns: seq<Campaign>): seq<Campaign> {
    if campaigns == [] then [] else Joined(Grouped(campaigns[..|campaigns| - 1]), campaigns[|campaigns| - 1])
  }

  lemma InsertJoins(merged: seq<Item>, item: Item)
    ensures Campaigns(Insert(merged, item)) == Joined(Campaigns(merged), item.campaign)
  {
    hide KeyOf, FirstMatch;
  }

  // ---- when the second candidate is skipped ----

  /** Object `k` is still in the list exactly when no other campaign had its key. */
  predicate Alone(campaigns: seq<Campaign>, k: nat) {
    k < |campaigns| && forall j :: 0 <= j < |campaigns| && j != k ==> KeyOf(campaigns[j]) != KeyOf(campaigns[k])
  }

  function Inserts(campaigns: seq<Campaign>): seq<Item> {
    if campaigns == [] then []
    else
      var k := |campaigns| - 1;
      Insert(Inserts(campaigns[..k]), Item(Some(k), campaigns[k]))
  }

  predicate DistinctItems(items: seq<Item>) {
    forall i, j :: 0 <= i < j < |items| ==> KeyOf(items[i].campaign) != KeyOf(items[j].campaign)
  }

  function KeySet(campaigns: seq<Campaign>): set<Key> { set c | c in campaigns :: KeyOf(c) }

  /** Which objects of the input are still in the list. */
  predicate Originals(campaigns: seq<Campaign>, items: seq<Item>) {
    (forall x :: x in items && x.origin.Some? ==> Alone(campaigns, x.origin.value) && x.campaign == campaigns[x.origin.value])
    && forall k :: 0 <= k < |campaigns| && Alone(campaigns, k) ==> Item(Some(k), campaigns[k]) in items
  }

  lemma KeySetAppend(campaigns: seq<Campaign>, c: Campaign)
    ensures KeySet(campaigns + [c]) == KeySet(campaigns) + {KeyOf(c)}
  {
    hide KeyOf;
    assert forall d :: d in campaigns + [c] <==> d in campaigns || d == c;
  }

  lemma InKeySet(campaigns: seq<Campaign>, key: Key)
    ensures key in KeySet(campaigns) <==> FirstMatch(campaigns, key) < |campaigns|
  {
    hide KeyOf;
    if key in KeySet(campaigns) {
      var c :| c in campaigns && KeyOf(c) == key;
      var i :| 0 <= i < |campaigns| && campaigns[i] == c;
    }
  }

  lemma JoinedKeys(campaigns: seq<Campaign>, c: Campaign)
    ensures KeySet(Joined(campaigns, c)) == KeySet(campaigns) + {KeyOf(c)}
  {
    hide KeyOf, FirstMatch;
    var i := FirstMatch(campaigns, KeyOf(c));
    if i == |campaigns| {
      KeySetAppend(campaigns, c);
    } else {
      var after := Joined(campaigns, c);
      SameKey(campaigns[i], after[i]);
      forall k | k in KeySet(campaigns) ensures k in KeySet(after) {
        var j :| 0 <= j < |campaigns| && KeyOf(campaigns[j]) == k;
        assert after[j] in after && KeyOf(after[j]) == k;
      }
      forall k | k in KeySet(after) ensures k in KeySet(campaigns) {
        var j :| 0 <= j < |after| && KeyOf(after[j]) == k;
        assert campaigns[j] in campaigns && KeyOf(campaigns[j]) == k;
      }
      assert campaigns[i] in campaigns;
    }
  }

  lemma SameKey(c: Campaign, d: Campaign)
    requires d == c.(schedules := d.schedules)
    ensures KeyOf(d) == KeyOf(c)
  {
  }

  lemma AloneAppend(campaigns: seq<Campaign>, c: Campaign, k: nat)
    requires k < |campaigns|
    ensures Alone(campaigns + [c], k) <==> Alone(campaigns, k) && KeyOf(campaigns[k]) != KeyOf(c)
  {
    hide KeyOf;
    var all := campaigns + [c];
    assert all[|campaigns|] == c;
    assert forall j :: 0 <= j < |campaigns| ==> all[j] == campaigns[j];
    if Alone(all, k) {
      forall j | 0 <= j < |campaigns| && j != k ensures KeyOf(campaigns[j]) != KeyOf(campaigns[k]) { assert all[j] == campaigns[j]; }
    }
  }

  lemma AloneLast(campaigns: seq<Campaign>, c: Campaign)
    ensures Alone(campaigns + [c], |campaigns|) <==> KeyOf(c) !in KeySet(campaigns)
  {
    hide KeyOf;
    var all := campaigns + [c];
    if KeyOf(c) in KeySet(campaigns) {
      var j :| 0 <= j < |campaigns| && KeyOf(campaigns[j]) == KeyOf(c);
      assert all[j] == campaigns[j];
    } else {
      forall j | 0 <= j < |campaigns| ensures KeyOf(all[j]) != KeyOf(c) { assert campaigns[j] in campaigns; }
    }
  }

  /** What an insertion leaves of the objects in the list. */
  lemma InsertMembers(items: seq<Item>, item: Item, x: Item)
    requires DistinctItems(items) && item.origin.Some? && x.origin.Some? && x != item
    ensures x in Insert(items, item) <==> x in items && KeyOf(x.campaign) != KeyOf(item.campaign)
  {
    hide KeyOf, FirstMatch;
    var m := FirstMatch(Campaigns(items), KeyOf(item.campaign));
    var after := Insert(items, item);
    if x in after {
      var i :| 0 <= i < |after| && after[i] == x;
      if m < |items| { assert Campaigns(items)[m] == items[m].campaign && i != m; }
      assert items[i] == x && Campaigns(items)[i] == x.campaign;
    }
    if x in items && KeyOf(x.campaign) != KeyOf(item.campaign) {
      var i :| 0 <= i < |items| && items[i] == x;
      if m < |items| { assert Campaigns(items)[m] == items[m].campaign && i != m; }
      assert after[i] == x;
    }
  }

  lemma InsertDistinct(items: seq<Item>, item: Item)
    requires DistinctItems(items)
    ensures DistinctItems(Insert(items, item))
  {
    hide Fold, Trim, FirstMatch;
    var c := Campaigns(items);
    assert forall i :: 0 <= i < |items| ==> c[i] == items[i].campaign;
  }

  lemma InsertOriginals(campaigns: seq<Campaign>, items: seq<Item>, c: Campaign)
    requires Originals(campaigns, items) && DistinctItems(items) && KeySet(Campaigns(items)) == KeySet(campaigns)
    ensures Originals(campaigns + [c], Insert(items, Item(Some(|campaigns|), c)))
  {
    hide KeyOf, FirstMatch, Insert, KeySet, Alone, DistinctItems;
    var all, item := campaigns + [c], Item(Some(|campaigns|), c);
    var after := Insert(items, item);
    AloneLast(campaigns, c);
    InKeySet(Campaigns(items), KeyOf(c));
    AloneInRange(campaigns);
    assert item !in items;
    NewMember(items, item);
    forall x | x in after && x.origin.Some?
      ensures x.origin.value < |all| && Alone(all, x.origin.value) && x.campaign == all[x.origin.value]
    {
      if x != item {
        InsertMembers(items, item, x);
        AloneAppend(campaigns, c, x.origin.value);
      }
    }
    forall k | 0 <= k < |all| && Alone(all, k) ensures Item(Some(k), all[k]) in after {
      if k < |campaigns| {
        AloneAppend(campaigns, c, k);
        InsertMembers(items, item, Item(Some(k), campaigns[k]));
      }
    }
  }

  lemma NewMember(items: seq<Item>, item: Item)
    requires item !in items && item.origin.Some?
    ensures item in Insert(items, item) <==> FirstMatch(Campaigns(items), KeyOf(item.campaign)) == |items|
  {
    hide KeyOf, FirstMatch;
    var after := Insert(items, item);
    if FirstMatch(Campaigns(items), KeyOf(item.campaign)) == |items| { assert after[|items|] == item; }
  }

  lemma {:induction false} InsertsOriginals(campaigns: seq<Campaign>)
    ensures Originals(campaigns, Inserts(campaigns)) && DistinctItems(Inserts(campaigns))
    ensures KeySet(Campaigns(Inserts(campaigns))) == KeySet(campaigns)
  {
    hide Originals, DistinctItems, Insert, KeyOf, KeySet, Joined;
    if campaigns == [] {
      NoOriginals();
    } else {
      var n := |campaigns| - 1;
      var before, c := campaigns[..n], campaigns[n];
      InsertsOriginals(before);
      InsertDistinct(Inserts(before), Item(Some(n), c));
      InsertOriginals(before, Inserts(before), c);
      InsertJoins(Inserts(before), Item(Some(n), c));
      JoinedKeys(Campaigns(Inserts(before)), c);
      KeySetAppend(before, c);
      assert before + [c] == campaigns;
    }
  }

  lemma NoOriginals()
    ensures Originals([], []) && DistinctItems([]) && KeySet(Campaigns([])) == KeySet([])
  {
    assert Campaigns([]) == [];
  }

  /** A candidate meets the other one in the list only when that one is still the object it was. */
  lemma RivalIsFirst(campaigns: seq<Campaign>, campaign: Campaign, one: nat, two: nat)
    requires one <= |campaigns| <= two
    ensures AnyRival(Inserts(campaigns), campaign, one, two) <==>
              one < |campaigns| && Alone(campaigns, one) && Fold(campaigns[one].kind) == Fold(campaign.kind)
  {
    hide KeyOf, Fold, Inserts, Alone;
    InsertsOriginals(campaigns);
    AloneInRange(campaigns);
    var items := Inserts(campaigns);
    if AnyRival(items, campaign, one, two) {
      var i :| 0 <= i < |items| && Rivals(items[i], campaign, one, two);
      assert Alone(campaigns, items[i].origin.value);
    } else if one < |campaigns| && Alone(campaigns, one) {
      var i :| 0 <= i < |items| && items[i] == Item(Some(one), campaigns[one]);
      assert !Rivals(items[i], campaign, one, two);
    }
  }

  lemma AloneInRange(campaigns: seq<Campaign>)
    ensures forall k: nat :: Alone(campaigns, k) ==> k < |campaigns|
  {
  }

  lemma {:induction false} TurnsBefore(campaigns: seq<Campaign>, one: nat, two: nat)
    requires one < two && |campaigns| <= two
    ensures Turns(campaigns, one, two) == Inserts(campaigns)
  {
    hide Insert, AnyRival;
    if campaigns != [] {
      var k := |campaigns| - 1;
      TurnsBefore(campaigns[..k], one, two);
      if k == one { RivalIsFirst(campaigns[..k], campaigns[k], one, two); }
    }
  }

  /** The second candidate is skipped exactly when the first one is still alone and of the same kind. */
  predicate Skips(campaigns: seq<Campaign>, one: nat, two: nat)
    requires one < two < |campaigns|
  {
    Alone(campaigns[..two], one) && Fold(campaigns[one].kind) == Fold(campaigns[two].kind)
  }

  function Kept(campaigns: seq<Campaign>, one: nat, two: nat): seq<Campaign>
    requires one < two < |campaigns|
  {
    if Skips(campaigns, one, two) then campaigns[..two] + campaigns[two + 1..] else campaigns
  }

  lemma {:induction false} InsertsGroup(campaigns: seq<Campaign>)
    ensures Campaigns(Inserts(campaigns)) == Grouped(campaigns)
  {
    hide Insert, Joined;
    if campaigns != [] {
      var k := |campaigns| - 1;
      InsertsGroup(campaigns[..k]);
      InsertJoins(Inserts(campaigns[..k]), Item(Some(k), campaigns[k]));
    }
  }

  lemma TurnsNext(before: seq<Campaign>, last: Campaign, one: nat, two: nat)
    ensures Turns(before + [last], one, two) == Turn(Turns(before, one, two), |before|, last, one, two)
  {
    hide Turn;
    assert (before + [last])[..|before|] == before;
  }

  lemma GroupedNext(before: seq<Campaign>, last: Campaign)
    ensures Grouped(before + [last]) == Joined(Grouped(before), last)
  {
    hide Joined;
    assert (before + [last])[..|before|] == before;
  }

  lemma KeptNext(before: seq<Campaign>, last: Campaign, one: nat, two: nat)
    requires one < two < |before|
    ensures Kept(before + [last], one, two) == Kept(before, one, two) + [last]
  {
    hide Alone, Fold;
    var all := before + [last];
    assert all[..two] == before[..two];
    assert all[two + 1..] == before[two + 1..] + [last];
    assert before[..two] + (before[two + 1..] + [last]) == (before[..two] + before[two + 1..]) + [last];
  }

  lemma KeptAt(before: seq<Campaign>, last: Campaign, one: nat)
    requires one < |before|
    ensures Kept(before + [last], one, |before|) ==
            if Alone(before, one) && Fold(before[one].kind) == Fold(last.kind) then before else before + [last]
  {
    hide Alone, Fold;
    var all := before + [last];
    assert all[..|before|] == before && all[|before| + 1..] == [] && before + [] == before;
  }

  /** Main result: the merged list is the grouping by key of both days' campaigns, less the skipped one. */
  lemma {:induction false} MergeGroups(campaigns: seq<Campaign>, one: nat, two: nat)
    requires one < two < |campaigns|
    ensures Campaigns(Turns(campaigns, one, two)) == Grouped(Kept(campaigns, one, two))
    decreases |campaigns|
  {
    hide Insert, Joined, AnyRival, Alone, Fold, Turns, Grouped, Kept, Inserts, Campaigns;
    var k := |campaigns| - 1;
    var before, last := campaigns[..k], campaigns[k];
    assert campaigns == before + [last];
    TurnsNext(before, last, one, two);
    if k == two {
      TurnsBefore(before, one, two);
      RivalIsFirst(before, last, one, two);
      InsertsGroup(before);
      KeptAt(before, last, one);
      GroupedNext(before, last);
      InsertJoins(Inserts(before), Item(Some(k), last));
    } else {
      MergeGroups(before, one, two);
      KeptNext(before, last, one, two);
      GroupedNext(Kept(before, one, two), last);
      InsertJoins(Turns(before, one, two), Item(Some(k), last));
    }
  }

  // ---- what grouping conserves ----

  predicate DistinctKeys(campaigns: seq<Campaign>) {
    forall i, j :: 0 <= i < j < |campaigns| ==> KeyOf(campaigns[i]) != KeyOf(campaigns[j])
  }

  /** The schedules of one key, in order. */
  function SchedulesOf(campaigns: seq<Campaign>, key: Key): seq<Schedule> {
    if campaigns == [] then []
    else
      var last := campaigns[|campaigns| - 1];
      SchedulesOf(campaigns[..|campaigns| - 1], key) + if KeyOf(last) == key then last.schedules else []
  }

  predicate HasKey(campaigns: seq<Campaign>, key: Key) { exists i :: 0 <= i < |campaigns| && KeyOf(campaigns[i]) == key }

  lemma JoinedDistinct(campaigns: seq<Campaign>, c: Campaign)
    requires DistinctKeys(campaigns)
    ensures DistinctKeys(Joined(campaigns, c))
  {
    hide Fold, Trim, FirstMatch;
  }

  lemma {:induction false} AbsentKey(campaigns: seq<Campaign>, key: Key)
    requires !HasKey(campaigns, key)
    ensures SchedulesOf(campaigns, key) == []
  {
    hide KeyOf;
    if campaigns != [] { AbsentKey(campaigns[..|campaigns| - 1], key); }
  }

  /** Replacing the only campaign of a key replaces the schedules of that key. */
  lemma {:induction false} UpdateSchedules(campaigns: seq<Campaign>, i: nat, changed: Campaign, key: Key)
    requires i < |campaigns| && KeyOf(changed) == KeyOf(campaigns[i])
    requires forall j :: 0 <= j < |campaigns| && KeyOf(campaigns[j]) == KeyOf(campaigns[i]) ==> j == i
    ensures SchedulesOf(campaigns[i := changed], key) ==
            if key == KeyOf(changed) then changed.schedules else SchedulesOf(campaigns, key)
  {
    hide KeyOf;
    var n := |campaigns| - 1;
    var after := campaigns[i := changed];
    if i < n {
      UpdateSchedules(campaigns[..n], i, changed, key);
      assert after[..n] == campaigns[..n][i := changed];
      assert KeyOf(campaigns[n]) != KeyOf(campaigns[i]);
    } else {
      assert after[..n] == campaigns[..n];
      if key == KeyOf(changed) { AbsentKey(campaigns[..n], key); }
    }
  }

  lemma JoinedConserves(campaigns: seq<Campaign>, c: Campaign, key: Key)
    requires DistinctKeys(campaigns)
    ensures SchedulesOf(Joined(campaigns, c), key) ==
            SchedulesOf(campaigns, key) + if KeyOf(c) == key then c.schedules else []
  {
    hide KeyOf, SchedulesOf, FirstMatch;
    var i := FirstMatch(campaigns, KeyOf(c));
    if i == |campaigns| {
      AppendSchedules(campaigns, c, key);
    } else {
      var changed := campaigns[i].(schedules := campaigns[i].schedules + c.schedules);
      SameKey(campaigns[i], changed);
      UpdateSchedules(campaigns, i, changed, key);
      UpdateSchedules(campaigns, i, campaigns[i], key);
      assert campaigns[i := campaigns[i]] == campaigns;
    }
  }

  lemma AppendSchedules(campaigns: seq<Campaign>, c: Campaign, key: Key)
    ensures SchedulesOf(campaigns + [c], key) == SchedulesOf(campaigns, key) + if KeyOf(c) == key then c.schedules else []
  {
    assert (campaigns + [c])[..|campaigns|] == campaigns;
  }

  /** Grouping leaves one campaign per key, with all the schedules of that key in their order. */
  lemma {:induction false} GroupedConserves(campaigns: seq<Campaign>, key: Key)
    ensures DistinctKeys(Grouped(campaigns)) && SchedulesOf(Grouped(campaigns), key) == SchedulesOf(campaigns, key)
  {
    hide KeyOf, Joined, DistinctKeys;
    if campaigns == [] {
      assert DistinctKeys([]) by { NoKeys(); }
    } else {
      var n := |campaigns| - 1;
      GroupedConserves(campaigns[..n], key);
      JoinedDistinct(Grouped(campaigns[..n]), campaigns[n]);
      JoinedConserves(Grouped(campaigns[..n]), campaigns[n], key);
    }
  }

  lemma NoKeys()
    ensures DistinctKeys([])
  {
  }

  /** All schedules, counted. */
  function AllSchedules(campaigns: seq<Campaign>): multiset<Schedule> {
    if campaigns == [] then multiset{}
    else AllSchedules(campaigns[..|campaigns| - 1]) + multiset(campaigns[|campaigns| - 1].schedules)
  }

  lemma OneCount(c: Campaign)
    ensures AllSchedules([c]) == multiset(c.schedules)
  {
    assert [c][..0] == [];
  }

  lemma CountsAround(before: seq<Campaign>, c: Campaign, after: seq<Campaign>)
    ensures AllSchedules(before + [c] + after) == AllSchedules(before) + multiset(c.schedules) + AllSchedules(after)
  {
    hide AllSchedules;
    CountsConcat(before + [c], after);
    CountsConcat(before, [c]);
    OneCount(c);
  }

  lemma UpdateCounts(campaigns: seq<Campaign>, i: nat, more: seq<Schedule>)
    requires i < |campaigns|
    ensures AllSchedules(campaigns[i := campaigns[i].(schedules := campaigns[i].schedules + more)])
            == AllSchedules(campaigns) + multiset(more)
  {
    hide AllSchedules;
    var changed := campaigns[i].(schedules := campaigns[i].schedules + more);
    var before, after := campaigns[..i], campaigns[i + 1..];
    CountsAround(before, changed, after);
    CountsAround(before, campaigns[i], after);
    assert campaigns[i := changed] == before + [changed] + after && campaigns == before + [campaigns[i]] + after;
  }

  lemma {:induction false} GroupedCounts(campaigns: seq<Campaign>)
    ensures AllSchedules(Grouped(campaigns)) == AllSchedules(campaigns)
  {
    hide KeyOf, FirstMatch;
    if campaigns != [] {
      var n := |campaigns| - 1;
      var before, last := Grouped(campaigns[..n]), campaigns[n];
      GroupedCounts(campaigns[..n]);
      var i := FirstMatch(before, KeyOf(last));
      if i == |before| {
        assert (before + [last])[..|before|] == before;
      } else {
        UpdateCounts(before, i, last.schedules);
      }
    }
  }

  lemma {:induction false} CountsConcat(a: seq<Campaign>, b: seq<Campaign>)
    ensures AllSchedules(a + b) == AllSchedules(a) + AllSchedules(b)
  {
    if b == [] {
      assert a + b == a;
    } else {
      var n := |b| - 1;
      assert (a + b)[..|a + b| - 1] == a + b[..n];
      CountsConcat(a, b[..n]);
    }
  }

  lemma KeptCounts(all: seq<Campaign>, one: nat, two: nat)
    requires one < two < |all|
    ensures AllSchedules(Kept(all, one, two)) + (if Skips(all, one, two) then multiset(all[two].schedules) else multiset{})
            == AllSchedules(all)
  {
    hide *;
    KeptIs(all, one, two);
    if Skips(all, one, two) {
      var before, after := all[..two], all[two + 1..];
      CountsConcat(before, after);
      CountsAround(before, all[two], after);
      assert all == before + [all[two]] + after;
    }
  }

  lemma KeptIs(all: seq<Campaign>, one: nat, two: nat)
    requires one < two < |all|
    ensures Kept(all, one, two) == if Skips(all, one, two) then all[..two] + all[two + 1..] else all
  {
    hide Skips;
  }

  /** What `Merge` promises: one campaign per trimmed name and kind ignoring case, and every daily schedule of
      both days exactly once, except those of the second day's candidate when it is skipped. */
  lemma MergeConserves(first: seq<Campaign>, second: seq<Campaign>, one: nat, two: nat)
    requires one < |first| && two < |second|
    ensures var all, other := first + second, |first| + two;
            var merged := Campaigns(Turns(all, one, other));
            (forall i, j :: 0 <= i < j < |merged| ==>
               Fold(Trim(merged[i].name)) != Fold(Trim(merged[j].name)) || Fold(merged[i].kind) != Fold(merged[j].kind))
            && AllSchedules(merged) + (if Skips(all, one, other) then multiset(second[two].schedules) else multiset{})
               == AllSchedules(first) + AllSchedules(second)
  {
    hide *;
    var all, other := first + second, |first| + two;
    MergeGroups(all, one, other);
    GroupedConserves(Kept(all, one, other), ("", ""));
    GroupedCounts(Kept(all, one, other));
    KeptCounts(all, one, other);
    CountsConcat(first, second);
    assert all[other] == second[two];
    KeysApart(Campaigns(Turns(all, one, other)));
  }

  /** Equal keys are equal names, apart from white space around them and from case, and equal kinds, apart from case. */
  lemma KeyExactly(a: Campaign, b: Campaign)
    ensures KeyOf(a) == KeyOf(b) <==> Fold(Trim(a.name)) == Fold(Trim(b.name)) && Fold(a.kind) == Fold(b.kind)
  {
  }

  lemma KeysApart(campaigns: seq<Campaign>)
    requires DistinctKeys(campaigns)
    ensures forall i, j :: 0 <= i < j < |campaigns| ==>
              Fold(Trim(campaigns[i].name)) != Fold(Trim(campaigns[j].name)) || Fold(campaigns[i].kind) != Fold(campaigns[j].kind)
  {
    hide KeyOf, Fold, Trim;
    forall i, j | 0 <= i < j < |campaigns|
      ensures Fold(Trim(campaigns[i].name)) != Fold(Trim(campaigns[j].name)) || Fold(campaigns[i].kind) != Fold(campaigns[j].kind)
    {
      KeyExactly(campaigns[i], campaigns[j]);
    }
  }

  /** Each merged campaign holds the schedules of its key, in the order of the days. */
  lemma MergeKeepsOrder(first: seq<Campaign>, second: seq<Campaign>, one: nat, two: nat, key: Key)
    requires one < |first| && two < |second|
    ensures var all, other := first + second, |first| + two;
            SchedulesOf(Campaigns(Turns(all, one, other)), key) == SchedulesOf(Kept(all, one, other), key)
  {
    hide *;
    var all, other := first + second, |first| + two;
    MergeGroups(all, one, other);
    GroupedConserves(Kept(all, one, other), key);
  }
}
