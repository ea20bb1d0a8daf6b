/** The HTTP integration host under concurrent requests: atomic counters, response sequences, and the
    capture queue that every handler trims after it has enqueued. */
module IntegrationHost {
  import opened Int32
  import opened Optional

  // ---- response sequences ----

  /** The rule's own response, an entry of its sequence, or the exception for a negative index. */
  datatype Answer = Own | Item(index: nat) | Throws

  /** `Sequence[Math.Min(index, Count - 1)]` where there is a sequence. */
  function Entry(index: int, count: nat): Answer {
    if count == 0 then Own else if index < 0 then Throws else Item(if index < count then index else count - 1)
  }

  /** The answer to the call after `k` others. */
  function Served(k: nat, count: nat): Answer { Entry(Wrap(k), count) }

  /** `count` is the length of the sequence, 0 for a rule without one. */
  class RuleState {
    var invocation: int
    const count: nat

    constructor (count: nat)
      ensures invocation == 0 && this.count == count
    {
      invocation := 0;
      this.count := count;
    }

    /** `calls` is the number of earlier calls. */
    method Next(ghost calls: nat) returns (answer: Answer)
      requires invocation == Wrap(calls)
      modifies this`invocation
      ensures invocation == Wrap(calls + 1) && answer == Served(calls, count)
    {
      WrapStep(calls);
      invocation := Wrap(invocation + 1);
      WrapStep(calls + 1);
      var index := Wrap(invocation - 1);
      if count > 0 {
        if index < 0 { return Throws; }
        return Item(if index < count then index else count - 1);
      }
      return Own;
    }
  }

  /** Exactly when the call after `k` others gets the entry that was meant for it. */
  lemma ServedExactly(k: nat, count: nat)
    requires count > 0
    ensures Served(k, count) == Item(if k < count then k else count - 1) <==>
              k % WORD < 0x8000_0000 && (k < WORD || k % WORD >= count - 1)
  {
    WrapCongruent(k, k % WORD);
    assert k == WORD * (k / WORD) + k % WORD;
    assert (k - k % WORD) % WORD == 0;
    if k % WORD < 0x8000_0000 {
      WrapSmall(k % WORD);
    } else {
      WrapCongruent(k, k % WORD - WORD);
      assert k - (k % WORD - WORD) == WORD * (k / WORD + 1);
      WrapSmall(k % WORD - WORD);
    }
  }

  lemma OwnServed(k: nat)
    ensures Served(k, 0) == Own
  {
  }

  // ---- the host as a state machine ----

  /** A handler's position. `number` is the exchange number it took on arrival. */
  datatype Phase =
    | Numbered(number: int)
    | Matched(number: int, rule: nat)
    | Answered(number: int)
    | Checking(number: int)
    | Dropping(number: int)
    | Finished(number: int)
    | Aborted(number: int)

  /** A rule object; `served` records, in order, what its calls got. */
  datatype Rule = Rule(count: nat, invocation: int, served: seq<Answer>)

  /** `numbers`, `captured` and `dropped` are history: numbers taken, handlers enqueued, entries dequeued.
      `passed` says that some handler has found the queue too long; `cleared` that a DELETE has dequeued. */
  datatype State = State(
    sequence: int, handlers: map<nat, Phase>, routes: map<string, nat>, rules: map<nat, Rule>, queue: seq<nat>,
    numbers: seq<int>, captured: seq<nat>, dropped: nat, passed: bool, cleared: bool)

  /** The profile's limit on the queue, and how many handlers may be in flight at once. */
  datatype Limits = Limits(max: nat, inFlight: nat)

  const INITIAL: State := State(0, map[], map[], map[], [], [], [], 0, false, false)

  datatype Action =
    | Configure(key: string, rule: nat, count: nat)
    | Arrive(handler: nat) | Match(handler: nat, key: string) | Answer(handler: nat) | Next(handler: nat) | Abort(handler: nat)
    | Enqueue(handler: nat) | Check(handler: nat) | Drop(handler: nat)
    | Clear

  function InFlight(handlers: map<nat, Phase>): set<nat> {
    set h | h in handlers && !handlers[h].Finished? && !handlers[h].Aborted?
  }

  function Trimming(handlers: map<nat, Phase>): set<nat> {
    set h | h in handlers && (handlers[h].Checking? || handlers[h].Dropping?)
  }

  function Pending(handlers: map<nat, Phase>): set<nat> { set h | h in handlers && handlers[h].Dropping? }

  predicate Enabled(s: State, limits: Limits, a: Action) {
    match a
    case Configure(_, r, _) => r !in s.rules
    case Clear => true
    case Arrive(h) => h !in s.handlers && |InFlight(s.handlers)| < limits.inFlight
    case Match(h, key) => h in s.handlers && s.handlers[h].Numbered? && key in s.routes
    case Answer(h) => h in s.handlers && (s.handlers[h].Numbered? || s.handlers[h].Matched?)
    case Next(h) => h in s.handlers && s.handlers[h].Matched? && s.handlers[h].rule in s.rules
    case Abort(h) => h in s.handlers && s.handlers[h].Answered?
    case Enqueue(h) => h in s.handlers && s.handlers[h].Answered?
    case Check(h) => h in s.handlers && s.handlers[h].Checking?
    case Drop(h) => h in s.handlers && s.handlers[h].Dropping?
  }

  function To(s: State, h: nat, phase: Phase): State { s.(handlers := s.handlers[h := phase]) }

  /** `TryDequeue`: nothing happens on an empty queue. */
  function Dequeue(s: State): State { if s.queue == [] then s else s.(queue := s.queue[1..], dropped := s.dropped + 1) }

  function Called(rule: Rule): Rule {
    var counter := Wrap(rule.invocation + 1);
    rule.(invocation := counter, served := rule.served + [Entry(Wrap(counter - 1), rule.count)])
  }

  function Apply(s: State, limits: Limits, a: Action): State
    requires Enabled(s, limits, a)
  {
    match a
    case Configure(key, r, count) => s.(routes := s.routes[key := r], rules := s.rules[r := Rule(count, 0, [])])
    case Arrive(h) =>
      var number := Wrap(s.sequence + 1);
      To(s, h, Numbered(number)).(sequence := number, numbers := s.numbers + [number])
    case Match(h, key) => To(s, h, Matched(s.handlers[h].number, s.routes[key]))
    case Answer(h) => To(s, h, Answered(s.handlers[h].number))
    case Next(h) =>
      var r := s.handlers[h].rule;
      To(s, h, Answered(s.handlers[h].number)).(rules := s.rules[r := Called(s.rules[r])])
    case Abort(h) => To(s, h, Aborted(s.handlers[h].number))
    case Enqueue(h) => To(s, h, Checking(s.handlers[h].number)).(queue := s.queue + [h], captured := s.captured + [h])
    case Check(h) =>
      if |s.queue| > limits.max then To(s, h, Dropping(s.handlers[h].number)).(passed := true)
      else To(s, h, Finished(s.handlers[h].number))
    case Drop(h) => Dequeue(To(s, h, Checking(s.handlers[h].number)))
    case Clear => Dequeue(s).(cleared := true)
  }

  predicate Reaches(from_: State, limits: Limits, actions: seq<Action>, s: State)
    decreases |actions|
  {
    if actions == [] then from_ == s
    else Enabled(from_, limits, actions[0]) && Reaches(Apply(from_, limits, actions[0]), limits, actions[1..], s)
  }

  // ---- the invariant ----

  predicate NumbersOk(s: State) {
    s.sequence == Wrap(|s.numbers|) && forall i :: 0 <= i < |s.numbers| ==> s.numbers[i] == Wrap(i + 1)
  }

  predicate RuleOk(rule: Rule) {
    rule.invocation == Wrap(|rule.served|)
    && forall k :: 0 <= k < |rule.served| ==> rule.served[k] == Served(k, rule.count)
  }

  predicate QueueOk(s: State, limits: Limits) {
    s.dropped <= |s.captured| && s.queue == s.captured[s.dropped..]
    && |s.queue| <= limits.max + |Trimming(s.handlers)|
    && |InFlight(s.handlers)| <= limits.inFlight
    && (s.passed && !s.cleared ==> |s.queue| - |Pending(s.handlers)| >= limits.max + 1 - limits.inFlight)
    && (!s.passed && !s.cleared ==> s.dropped == 0 && Pending(s.handlers) == {})
  }

  predicate Inv(s: State, limits: Limits) {
    NumbersOk(s) && (forall r :: r in s.rules ==> RuleOk(s.rules[r])) && QueueOk(s, limits)
  }

  /** How the three sets of handlers change when one handler moves. */
  lemma MoveCounts(handlers: map<nat, Phase>, h: nat, phase: Phase)
    ensures var after := handlers[h := phase];
            InFlight(after) == (if phase.Finished? || phase.Aborted? then InFlight(handlers) - {h} else InFlight(handlers) + {h})
            && Trimming(after) == (if phase.Checking? || phase.Dropping? then Trimming(handlers) + {h} else Trimming(handlers) - {h})
            && Pending(after) == (if phase.Dropping? then Pending(handlers) + {h} else Pending(handlers) - {h})
  {
  }

  lemma PendingFits(handlers: map<nat, Phase>)
    ensures |Pending(handlers)| <= |Trimming(handlers)| <= |InFlight(handlers)|
  {
    Smaller(Pending(handlers), Trimming(handlers));
    Smaller(Trimming(handlers), InFlight(handlers));
  }

  lemma Smaller(a: set<nat>, b: set<nat>)
    requires a <= b
    ensures |a| <= |b|
  {
    assert b == a + (b - a);
  }

  lemma NumberStep(s: State, limits: Limits, h: nat)
    requires NumbersOk(s) && Enabled(s, limits, Arrive(h))
    ensures NumbersOk(Apply(s, limits, Arrive(h)))
  {
    hide Wrap, InFlight;
    WrapStep(|s.numbers|);
  }

  lemma CallKeeps(rule: Rule)
    requires RuleOk(rule)
    ensures RuleOk(Called(rule))
  {
    hide Wrap, Entry;
    WrapStep(|rule.served|);
    WrapStep(|rule.served| + 1);
    assert Served(|rule.served|, rule.count) == Entry(Wrap(|rule.served|), rule.count);
  }

  lemma FreshRule(count: nat)
    ensures RuleOk(Rule(count, 0, []))
  {
  }

  lemma RulesStep(s: State, limits: Limits, a: Action)
    requires (forall r :: r in s.rules ==> RuleOk(s.rules[r])) && Enabled(s, limits, a)
    ensures var s' := Apply(s, limits, a); forall r :: r in s'.rules ==> RuleOk(s'.rules[r])
  {
    hide RuleOk, Called, InFlight, Wrap;
    match a
    case Configure(_, _, count) => FreshRule(count);
    case Next(h) => CallKeeps(s.rules[s.handlers[h].rule]);
    case _ =>
  }

  /** Moves that neither touch the queue nor concern trimming. */
  lemma QuietStep(s: State, limits: Limits, a: Action)
    requires QueueOk(s, limits) && Enabled(s, limits, a)
    requires a.Configure? || a.Arrive? || a.Match? || a.Answer? || a.Next? || a.Abort?
    ensures QueueOk(Apply(s, limits, a), limits)
  {
    hide InFlight, Trimming, Pending, Called, Wrap, QueueOk;
    if a.Configure? {
      WithinLimit(s, limits);
      SameQueue(s, Apply(s, limits, a), limits);
    } else {
      var s', h := Apply(s, limits, a), a.handler;
      MoveCounts(s.handlers, h, s'.handlers[h]);
      NotTrimming(s.handlers, h);
      assert Trimming(s'.handlers) == Trimming(s.handlers) && Pending(s'.handlers) == Pending(s.handlers);
      InFlightFits(s, limits, a);
      SameQueue(s, s', limits);
    }
  }

  lemma WithinLimit(s: State, limits: Limits)
    requires QueueOk(s, limits)
    ensures |InFlight(s.handlers)| <= limits.inFlight
  {
  }

  lemma InFlightFits(s: State, limits: Limits, a: Action)
    requires QueueOk(s, limits) && Enabled(s, limits, a)
    requires a.Arrive? || a.Match? || a.Answer? || a.Next? || a.Abort?
    ensures |InFlight(Apply(s, limits, a).handlers)| <= limits.inFlight
  {
    hide InFlight, Trimming, Pending, Called, Wrap;
    var s', h := Apply(s, limits, a), a.handler;
    MoveCounts(s.handlers, h, s'.handlers[h]);
    NotTrimming(s.handlers, h);
    if a.Abort? { Smaller(InFlight(s'.handlers), InFlight(s.handlers)); }
  }

  lemma SameQueue(s: State, s': State, limits: Limits)
    requires QueueOk(s, limits)
    requires s'.queue == s.queue && s'.captured == s.captured && s'.dropped == s.dropped && s'.passed == s.passed && s'.cleared == s.cleared
    requires Trimming(s'.handlers) == Trimming(s.handlers) && Pending(s'.handlers) == Pending(s.handlers)
    requires |InFlight(s'.handlers)| <= limits.inFlight
    ensures QueueOk(s', limits)
  {
    hide InFlight, Trimming, Pending;
  }

  lemma NotTrimming(handlers: map<nat, Phase>, h: nat)
    ensures h in handlers && (handlers[h].Checking? || handlers[h].Dropping?) <==> h in Trimming(handlers)
    ensures h in handlers && handlers[h].Dropping? <==> h in Pending(handlers)
    ensures h in handlers && !handlers[h].Finished? && !handlers[h].Aborted? <==> h in InFlight(handlers)
  {
  }

  /** A handler that has answered joins those that trim. */
  lemma EnqueueCounts(handlers: map<nat, Phase>, h: nat, phase: Phase)
    requires h in handlers && handlers[h].Answered? && phase.Checking?
    ensures var after := handlers[h := phase];
            InFlight(after) == InFlight(handlers) && Pending(after) == Pending(handlers) && |Trimming(after)| == |Trimming(handlers)| + 1
  {
    hide InFlight, Trimming, Pending;
    MoveCounts(handlers, h, phase);
    NotTrimming(handlers, h);
  }

  lemma EnqueueStep(s: State, limits: Limits, h: nat)
    requires QueueOk(s, limits) && Enabled(s, limits, Enqueue(h))
    ensures QueueOk(Apply(s, limits, Enqueue(h)), limits)
  {
    hide InFlight, Trimming, Pending;
    EnqueueCounts(s.handlers, h, Checking(s.handlers[h].number));
    assert (s.captured + [h])[s.dropped..] == s.captured[s.dropped..] + [h];
  }

  /** The check is passed: one more dequeue is pending, and at most `inFlight` of them. */
  lemma CheckPassed(s: State, limits: Limits, h: nat)
    requires QueueOk(s, limits) && Enabled(s, limits, Check(h)) && |s.queue| > limits.max
    ensures QueueOk(Apply(s, limits, Check(h)), limits)
  {
    hide InFlight, Trimming, Pending;
    var s' := Apply(s, limits, Check(h));
    MoveCounts(s.handlers, h, s'.handlers[h]);
    NotTrimming(s.handlers, h);
    assert InFlight(s'.handlers) == InFlight(s.handlers) && Trimming(s'.handlers) == Trimming(s.handlers);
    PendingFits(s'.handlers);
  }

  lemma CheckFailed(s: State, limits: Limits, h: nat)
    requires QueueOk(s, limits) && Enabled(s, limits, Check(h)) && |s.queue| <= limits.max
    ensures QueueOk(Apply(s, limits, Check(h)), limits)
  {
    hide InFlight, Trimming, Pending;
    var s' := Apply(s, limits, Check(h));
    MoveCounts(s.handlers, h, s'.handlers[h]);
    NotTrimming(s.handlers, h);
    assert Pending(s'.handlers) == Pending(s.handlers);
    Smaller(InFlight(s'.handlers), InFlight(s.handlers));
  }

  lemma DropStep(s: State, limits: Limits, h: nat)
    requires QueueOk(s, limits) && Enabled(s, limits, Drop(h))
    ensures QueueOk(Apply(s, limits, Drop(h)), limits)
  {
    hide InFlight, Trimming, Pending;
    var s' := Apply(s, limits, Drop(h));
    MoveCounts(s.handlers, h, s'.handlers[h]);
    NotTrimming(s.handlers, h);
    assert InFlight(s'.handlers) == InFlight(s.handlers) && Trimming(s'.handlers) == Trimming(s.handlers);
    assert |Pending(s'.handlers)| == |Pending(s.handlers)| - 1;
  }

  lemma StepKeeps(s: State, limits: Limits, a: Action)
    requires Inv(s, limits) && Enabled(s, limits, a)
    ensures Inv(Apply(s, limits, a), limits)
  {
    hide InFlight, Trimming, Pending, Called, Wrap, RuleOk;
    RulesStep(s, limits, a);
    match a
    case Enqueue(h) => EnqueueStep(s, limits, h);
    case Check(h) => if |s.queue| > limits.max { CheckPassed(s, limits, h); } else { CheckFailed(s, limits, h); }
    case Drop(h) => DropStep(s, limits, h);
    case Clear =>
    case Arrive(h) =>
      NumberStep(s, limits, h);
      QuietStep(s, limits, a);
    case _ => QuietStep(s, limits, a);
  }

  lemma InitialOk(limits: Limits)
    ensures Inv(INITIAL, limits)
  {
    assert InFlight(map[]) == {} && Trimming(map[]) == {} && Pending(map[]) == {};
  }

  lemma {:induction false} RunKeeps(from_: State, limits: Limits, actions: seq<Action>, s: State)
    requires Inv(from_, limits) && Reaches(from_, limits, actions, s)
    ensures Inv(s, limits)
    decreases |actions|
  {
    hide Inv, Enabled, Apply;
    if actions != [] {
      StepKeeps(from_, limits, actions[0]);
      RunKeeps(Apply(from_, limits, actions[0]), limits, actions[1..], s);
    }
  }

  lemma ReachableInv(limits: Limits, actions: seq<Action>, s: State)
    requires Reaches(INITIAL, limits, actions, s)
    ensures Inv(s, limits)
  {
    InitialOk(limits);
    RunKeeps(INITIAL, limits, actions, s);
  }

  // ---- what every interleaving guarantees ----

  /** Two exchange numbers agree exactly when a multiple of 2^32 arrivals lies between them. */
  lemma NumbersDistinct(limits: Limits, actions: seq<Action>, s: State, i: nat, j: nat)
    requires Reaches(INITIAL, limits, actions, s) && i < j < |s.numbers|
    ensures s.numbers[i] == s.numbers[j] <==> (j - i) % WORD == 0
  {
    hide QueueOk, RuleOk, Reaches, Wrap;
    ReachableInv(limits, actions, s);
    WrapCongruent(j + 1, i + 1);
  }

  /** The k-th call to one rule object gets `Sequence[min(k, Count - 1)]`, whoever calls, exactly as long as the
      counter has not turned negative or begun again; a rule without a sequence always gives its own response. */
  lemma SequenceServedInOrder(limits: Limits, actions: seq<Action>, s: State, r: nat, k: nat)
    requires Reaches(INITIAL, limits, actions, s) && r in s.rules && k < |s.rules[r].served|
    ensures var rule := s.rules[r];
            if rule.count == 0 then rule.served[k] == Own
            else rule.served[k] == Item(if k < rule.count then k else rule.count - 1) <==>
                   k % WORD < 0x8000_0000 && (k < WORD || k % WORD >= rule.count - 1)
  {
    hide QueueOk, NumbersOk, Reaches, Wrap, Served;
    ReachableInv(limits, actions, s);
    assert RuleOk(s.rules[r]);
    if s.rules[r].count > 0 { ServedExactly(k, s.rules[r].count); } else { OwnServed(k); }
  }

  /** Up to 2^31 calls, every entry but the last is served at most once, and none before its predecessors. */
  lemma EntriesServedOnce(limits: Limits, actions: seq<Action>, s: State, r: nat, k: nat, e: nat)
    requires Reaches(INITIAL, limits, actions, s) && r in s.rules && |s.rules[r].served| <= 0x8000_0000
    requires k < |s.rules[r].served| && s.rules[r].served[k] == Item(e) && e + 1 < s.rules[r].count
    ensures forall k' :: 0 <= k' < |s.rules[r].served| && s.rules[r].served[k'] == Item(e) ==> k' == k
    ensures forall d: nat :: d < e ==> d < k && s.rules[r].served[d] == Item(d)
  {
    hide Reaches;
    forall k': nat | k' < |s.rules[r].served|
      ensures s.rules[r].served[k'] == Item(if k' < s.rules[r].count then k' else s.rules[r].count - 1)
    {
      SequenceServedInOrder(limits, actions, s, r, k');
    }
  }

  /** The queue is a suffix of the enqueue order, and too long by at most the handlers that are still trimming. */
  lemma QueueIsSuffix(limits: Limits, actions: seq<Action>, s: State)
    requires Reaches(INITIAL, limits, actions, s)
    ensures s.dropped <= |s.captured| && s.queue == s.captured[s.dropped..]
    ensures |s.queue| <= limits.max + |Trimming(s.handlers)|
  {
    hide NumbersOk, RuleOk, Reaches;
    ReachableInv(limits, actions, s);
  }

  /** When all handlers have gone, the queue holds at most `max` exchanges; and if anything was dropped, without
      a DELETE, then at least `max + 1 - inFlight` of the newest. */
  lemma QuietQueue(limits: Limits, actions: seq<Action>, s: State)
    requires Reaches(INITIAL, limits, actions, s) && InFlight(s.handlers) == {}
    ensures |s.queue| <= limits.max && |s.queue| <= |s.captured| && s.queue == s.captured[|s.captured| - |s.queue|..]
    ensures s.dropped > 0 && !s.cleared ==> |s.queue| >= limits.max + 1 - limits.inFlight
    ensures s.dropped == 0 ==> s.queue == s.captured
  {
    hide NumbersOk, RuleOk, Reaches, InFlight, Trimming, Pending;
    ReachableInv(limits, actions, s);
    PendingFits(s.handlers);
  }

  // ---- which rule a request meets, and what a call does to it ----

  /** The rule that was configured last for that key. */
  function LastRule(actions: seq<Action>, key: string): (r: Option<nat>)
  {
    if actions == [] then None
    else
      var last := actions[|actions| - 1];
      if last.Configure? && last.key == key then Some(last.rule) else LastRule(actions[..|actions| - 1], key)
  }

  /** A route leads to the rule that was configured last for its key, in every run. */
  lemma {:induction false} RoutesExactly(limits: Limits, actions: seq<Action>, s: State, key: string)
    requires Reaches(INITIAL, limits, actions, s)
    ensures LastRule(actions, key) == if key in s.routes then Some(s.routes[key]) else None
    decreases |actions|
  {
    hide Enabled, Apply;
    if actions != [] {
      var before := LastState(INITIAL, limits, actions, s);
      RoutesExactly(limits, actions[..|actions| - 1], before, key);
      RouteStep(before, limits, actions[|actions| - 1], key);
    }
  }

  lemma RouteStep(s: State, limits: Limits, a: Action, key: string)
    requires Enabled(s, limits, a)
    ensures var s' := Apply(s, limits, a);
            if a.Configure? && a.key == key then key in s'.routes && s'.routes[key] == a.rule
            else (key in s'.routes <==> key in s.routes) && (key in s.routes ==> s'.routes[key] == s.routes[key])
  {
  }

  /** A run without its last action. */
  lemma {:induction false} LastState(from_: State, limits: Limits, actions: seq<Action>, s: State) returns (before: State)
    requires actions != [] && Reaches(from_, limits, actions, s)
    ensures var n := |actions| - 1;
            Reaches(from_, limits, actions[..n], before) && Enabled(before, limits, actions[n]) && Apply(before, limits, actions[n]) == s
    decreases |actions|
  {
    hide Enabled, Apply;
    var n := |actions| - 1;
    if n == 0 {
      before := from_;
      assert actions[1..] == [] && actions[..0] == [];
    } else {
      var next := Apply(from_, limits, actions[0]);
      before := LastState(next, limits, actions[1..], s);
      assert actions[1..][..n - 1] == actions[..n][1..] && actions[1..][n - 1] == actions[n];
    }
  }

  /** A handler that matches a key gets the rule that its route leads to at that moment. */
  lemma MatchLeads(limits: Limits, actions: seq<Action>, s: State, h: nat, key: string)
    requires Reaches(INITIAL, limits, actions, s) && Enabled(s, limits, Match(h, key))
    ensures var s' := Apply(s, limits, Match(h, key));
            s'.handlers[h].Matched? && Some(s'.handlers[h].rule) == LastRule(actions, key) && s'.handlers[h].number == s.handlers[h].number
  {
    hide Reaches;
    RoutesExactly(limits, actions, s, key);
  }

  /** A rule object keeps its sequence and its history; a step adds the answer to the next call to it when it is such a call,
      and otherwise nothing. */
  lemma CallsExactly(s: State, limits: Limits, a: Action, r: nat)
    requires Inv(s, limits) && Enabled(s, limits, a) && r in s.rules
    ensures var s' := Apply(s, limits, a);
            r in s'.rules && s'.rules[r].count == s.rules[r].count
            && s'.rules[r].served == s.rules[r].served
                 + if a.Next? && s.handlers[a.handler].rule == r then [Served(|s.rules[r].served|, s.rules[r].count)] else []
  {
    hide QueueOk, NumbersOk, Wrap, Entry, InFlight;
    assert RuleOk(s.rules[r]);
    WrapStep(|s.rules[r].served|);
    WrapStep(|s.rules[r].served| + 1);
  }

  /** A new rule object has been called by nobody. */
  lemma ConfiguredAnew(s: State, limits: Limits, key: string, r: nat, count: nat)
    requires Enabled(s, limits, Configure(key, r, count))
    ensures r !in s.rules && Apply(s, limits, Configure(key, r, count)).rules[r] == Rule(count, 0, [])
  {
  }

  /** A `DELETE` may dequeue at any time, and no handler is ever stuck before it has finished or its client has gone. */
  lemma NobodyIsStuck(s: State, limits: Limits, h: nat)
    requires h in s.handlers && !s.handlers[h].Finished? && !s.handlers[h].Aborted?
    ensures Enabled(s, limits, Clear)
    ensures Enabled(s, limits, Answer(h)) || Enabled(s, limits, Enqueue(h)) || Enabled(s, limits, Check(h)) || Enabled(s, limits, Drop(h))
  {
  }

  /** What a step does to the queue: an answered handler joins at the end, a dequeue takes the oldest one off, and a handler
      goes on dequeuing exactly while the queue is longer than the limit. */
  lemma QueueMoves(s: State, limits: Limits, a: Action)
    requires Enabled(s, limits, a)
    ensures var s' := Apply(s, limits, a);
            s'.queue == (if a.Enqueue? then s.queue + [a.handler]
                         else if (a.Drop? || a.Clear?) && s.queue != [] then s.queue[1..] else s.queue)
            && (a.Check? ==> (s'.handlers[a.handler].Dropping? <==> |s.queue| > limits.max)
                             && (s'.handlers[a.handler].Finished? <==> |s.queue| <= limits.max))
            && (a.Drop? || a.Enqueue? ==> s'.handlers[a.handler].Checking?)
            && (a.Clear? || a.Configure? ==> s'.handlers == s.handlers)
  {
  }
}
