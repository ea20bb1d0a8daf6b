/** The lower bound on the capture queue cannot be improved: for every limit and every number of handlers there
    is a run that reaches it. */
module QueueBound {
  import opened IntegrationHost

  datatype Kind = IsAnswered | IsChecking | IsDropping | IsFinished

  predicate Is(phase: Phase, kind: Kind) {
    match kind
    case IsAnswered => phase.Answered?
    case IsChecking => phase.Checking?
    case IsDropping => phase.Dropping?
    case IsFinished => phase.Finished?
  }

  /** Handlers below `base` are gone; of the next `n`, the first `k` have come from `before` to `after`. */
  ghost predicate Burst(s: State, base: nat, n: nat, k: nat, after: Kind, before: Kind) {
    k <= n && !s.cleared
    && (forall h: nat :: h in s.handlers <==> h < base + n)
    && (forall h: nat :: h < base ==> s.handlers[h].Finished?)
    && (forall h: nat :: base <= h < base + k ==> Is(s.handlers[h], after))
    && forall h: nat :: base + k <= h < base + n ==> Is(s.handlers[h], before)
  }

  lemma {:induction false} ReachesJoin(a: State, limits: Limits, first: seq<Action>, b: State, second: seq<Action>, c: State)
    requires Reaches(a, limits, first, b) && Reaches(b, limits, second, c)
    ensures Reaches(a, limits, first + second, c)
    decreases |first|
  {
    hide Enabled, Apply;
    if first == [] {
      assert first + second == second;
    } else {
      assert (first + second)[0] == first[0] && (first + second)[1..] == first[1..] + second;
      ReachesJoin(Apply(a, limits, first[0]), limits, first[1..], b, second, c);
    }
  }

  lemma One(s: State, limits: Limits, a: Action)
    requires Enabled(s, limits, a)
    ensures Reaches(s, limits, [a], Apply(s, limits, a))
  {
    assert [a][1..] == [];
    assert Reaches(Apply(s, limits, a), limits, [], Apply(s, limits, a));
  }

  lemma None(s: State, limits: Limits)
    ensures Reaches(s, limits, [], s)
  {
  }

  /** A stage: each of the `n` handlers takes one action that brings it from `before` to `after`. */
  function Turn(kind: Kind, h: nat): Action {
    match kind
    case IsAnswered => Enqueue(h)
    case IsChecking => Check(h)
    case IsDropping => Drop(h)
    case IsFinished => Clear
  }

  function Next(before: Kind, long: bool): Kind {
    match before
    case IsAnswered => IsChecking
    case IsChecking => if long then IsDropping else IsFinished
    case IsDropping => IsChecking
    case IsFinished => IsFinished
  }

  /** The queue length after such an action. */
  function Length(before: Kind, q: nat): nat {
    match before
    case IsAnswered => q + 1
    case IsDropping => if q == 0 then 0 else q - 1
    case _ => q
  }

  function Lengths(before: Kind, q: nat, n: nat): nat
    decreases n
  {
    if n == 0 then q else Lengths(before, Length(before, q), n - 1)
  }

  lemma TurnTaken(s: State, limits: Limits, base: nat, n: nat, k: nat, before: Kind)
    requires !before.IsFinished? && k < n && Burst(s, base, n, k, Next(before, |s.queue| > limits.max), before)
    ensures Enabled(s, limits, Turn(before, base + k))
    ensures var s' := Apply(s, limits, Turn(before, base + k));
            Burst(s', base, n, k + 1, Next(before, |s.queue| > limits.max), before)
            && |s'.queue| == Length(before, |s.queue|) && s'.dropped + |s'.queue| >= s.dropped + |s.queue|
  {
    assert Is(s.handlers[base + k], before);
  }

  /** All handlers take their turn; checking ones see the same queue. */
  lemma {:induction false} AllTurn(s: State, limits: Limits, base: nat, n: nat, k: nat, before: Kind)
    returns (actions: seq<Action>, s': State)
    requires !before.IsFinished? && Burst(s, base, n, k, Next(before, |s.queue| > limits.max), before)
    ensures Reaches(s, limits, actions, s')
    ensures Burst(s', base, n, n, if before.IsChecking? then Next(before, |s.queue| > limits.max) else IsChecking, before)
    ensures |s'.queue| == Lengths(before, |s.queue|, n - k) && s'.dropped + |s'.queue| >= s.dropped + |s.queue|
    decreases n - k
  {
    hide Reaches, Enabled, Apply;
    if k == n {
      actions, s' := [], s;
      None(s, limits);
    } else {
      var a := Turn(before, base + k);
      TurnTaken(s, limits, base, n, k, before);
      One(s, limits, a);
      var rest;
      rest, s' := AllTurn(Apply(s, limits, a), limits, base, n, k + 1, before);
      actions := [a] + rest;
      ReachesJoin(s, limits, [a], Apply(s, limits, a), rest, s');
    }
  }

  lemma Handover(s: State, base: nat, n: nat, kind: Kind, other: Kind, next: Kind)
    requires Burst(s, base, n, n, kind, other)
    ensures Burst(s, base, n, 0, next, kind)
  {
  }

  lemma {:induction false} RangeSize(lo: nat, n: nat) returns (r: set<nat>)
    ensures |r| == n && forall h: nat :: h in r <==> lo <= h < lo + n
  {
    r := {};
    if n > 0 {
      r := RangeSize(lo, n - 1);
      r := r + {lo + n - 1};
    }
  }

  lemma BurstInFlight(s: State, base: nat, n: nat)
    requires Burst(s, base, n, n, IsAnswered, IsAnswered)
    ensures |InFlight(s.handlers)| == n
  {
    var r := RangeSize(base, n);
    forall h: nat ensures h in InFlight(s.handlers) <==> h in r {
      if h < base { assert s.handlers[h].Finished?; }
      if base <= h < base + n { assert Is(s.handlers[h], IsAnswered); }
    }
    assert InFlight(s.handlers) == r;
  }

  /** One more handler arrives and gets its answer. */
  lemma Arrives(s: State, limits: Limits, base: nat, n: nat) returns (actions: seq<Action>, s': State)
    requires Burst(s, base, n, n, IsAnswered, IsAnswered) && n < limits.inFlight
    ensures Reaches(s, limits, actions, s') && Burst(s', base, n + 1, n + 1, IsAnswered, IsAnswered)
    ensures s'.queue == s.queue && s'.dropped == s.dropped
  {
    BurstInFlight(s, base, n);
    var h := base + n;
    var mid := Apply(s, limits, Arrive(h));
    s' := Apply(mid, limits, Answer(h));
    One(s, limits, Arrive(h));
    One(mid, limits, Answer(h));
    actions := [Arrive(h)] + [Answer(h)];
    ReachesJoin(s, limits, [Arrive(h)], mid, [Answer(h)], s');
  }

  lemma {:induction false} AllArrive(s: State, limits: Limits, base: nat, n: nat) returns (actions: seq<Action>, s': State)
    requires Burst(s, base, 0, 0, IsAnswered, IsAnswered) && n <= limits.inFlight
    ensures Reaches(s, limits, actions, s') && Burst(s', base, n, n, IsAnswered, IsAnswered)
    ensures s'.queue == s.queue && s'.dropped == s.dropped
  {
    hide Reaches, Burst;
    if n == 0 {
      actions, s' := [], s;
      None(s, limits);
    } else {
      var first, mid := AllArrive(s, limits, base, n - 1);
      var last;
      last, s' := Arrives(mid, limits, base, n - 1);
      actions := first + last;
      ReachesJoin(s, limits, first, mid, last, s');
    }
  }

  lemma Finished(s: State, base: nat, n: nat, before: Kind)
    requires Burst(s, base, n, n, IsFinished, before)
    ensures Burst(s, base + n, 0, 0, IsAnswered, IsAnswered)
  {
    forall h: nat | h < base + n ensures s.handlers[h].Finished? {
      if h >= base { assert Is(s.handlers[h], IsFinished); }
    }
  }

  lemma {:induction false} GrowsBy(q: nat, n: nat)
    ensures Lengths(IsAnswered, q, n) == q + n && Lengths(IsChecking, q, n) == q
    ensures Lengths(IsDropping, q, n) == if q >= n then q - n else 0
    decreases n
  {
    if n > 0 {
      GrowsBy(q, n - 1);
      GrowsBy(q + 1, n - 1);
      if q > 0 { GrowsBy(q - 1, n - 1); }
    }
  }

  /** `n` handlers arrive and enqueue. */
  lemma ArriveAndEnqueue(s: State, limits: Limits, base: nat, n: nat) returns (actions: seq<Action>, s': State)
    requires Burst(s, base, 0, 0, IsAnswered, IsAnswered) && n <= limits.inFlight
    ensures Reaches(s, limits, actions, s') && Burst(s', base, n, n, IsChecking, IsAnswered)
    ensures |s'.queue| == |s.queue| + n && s'.dropped + |s'.queue| >= s.dropped + |s.queue|
  {
    hide Reaches, Burst;
    var first, mid := AllArrive(s, limits, base, n);
    Handover(mid, base, n, IsAnswered, IsAnswered, IsChecking);
    var second;
    second, s' := AllTurn(mid, limits, base, n, 0, IsAnswered);
    GrowsBy(|mid.queue|, n);
    actions := first + second;
    ReachesJoin(s, limits, first, mid, second, s');
  }

  /** One after the other, `k` handlers fill the queue up to the limit. */
  lemma {:induction false} Fill(limits: Limits, k: nat) returns (actions: seq<Action>, s: State)
    requires k <= limits.max && limits.inFlight >= 1
    ensures Reaches(INITIAL, limits, actions, s) && Burst(s, k, 0, 0, IsAnswered, IsAnswered) && |s.queue| == k
  {
    hide Reaches, Burst;
    if k == 0 {
      actions, s := [], INITIAL;
      None(INITIAL, limits);
      Empty();
    } else {
      var first, mid := Fill(limits, k - 1);
      var second, full := ArriveAndEnqueue(mid, limits, k - 1, 1);
      Handover(full, k - 1, 1, IsChecking, IsAnswered, IsFinished);
      var third;
      third, s := AllTurn(full, limits, k - 1, 1, 0, IsChecking);
      GrowsBy(|full.queue|, 1);
      Finished(s, k - 1, 1, IsChecking);
      ReachesJoin(INITIAL, limits, first, mid, second, full);
      ReachesJoin(INITIAL, limits, first + second, full, third, s);
      actions := first + second + third;
    }
  }

  lemma Empty()
    ensures Burst(INITIAL, 0, 0, 0, IsAnswered, IsAnswered)
  {
  }

  /** One handler alone trims the queue down to one above the limit, while the others wait. */
  lemma {:induction false} TrimAlone(s: State, limits: Limits, base: nat, n: nat) returns (actions: seq<Action>, s': State)
    requires n >= 1 && Burst(s, base, n, n, IsChecking, IsAnswered) && |s.queue| > limits.max
    ensures Reaches(s, limits, actions, s') && Burst(s', base, n, n, IsChecking, IsAnswered) && |s'.queue| == limits.max + 1
    ensures s'.dropped + |s'.queue| >= s.dropped + |s.queue|
    decreases |s.queue|
  {
    hide Reaches;
    if |s.queue| == limits.max + 1 {
      actions, s' := [], s;
      None(s, limits);
    } else {
      assert Is(s.handlers[base], IsChecking);
      var mid := Apply(s, limits, Check(base));
      var next := Apply(mid, limits, Drop(base));
      One(s, limits, Check(base));
      One(mid, limits, Drop(base));
      ReachesJoin(s, limits, [Check(base)], mid, [Drop(base)], next);
      var rest;
      rest, s' := TrimAlone(next, limits, base, n);
      actions := [Check(base)] + [Drop(base)] + rest;
      ReachesJoin(s, limits, [Check(base)] + [Drop(base)], next, rest, s');
    }
  }

  /** For every limit and every number of handlers, some run without a DELETE ends exactly on the bound. */
  lemma BoundIsReached(limits: Limits) returns (actions: seq<Action>, s: State)
    requires limits.inFlight >= 1
    ensures Reaches(INITIAL, limits, actions, s) && InFlight(s.handlers) == {} && s.dropped > 0 && !s.cleared
    ensures |s.queue| == if limits.max + 1 >= limits.inFlight then limits.max + 1 - limits.inFlight else 0
  {
    hide Reaches, Burst;
    var base, n := limits.max, limits.inFlight;
    var a1, s1 := Fill(limits, base);
    var a2, s2 := ArriveAndEnqueue(s1, limits, base, n);
    var a3, s3 := TrimAlone(s2, limits, base, n);
    Handover(s3, base, n, IsChecking, IsAnswered, IsDropping);
    var a4, s4 := AllTurn(s3, limits, base, n, 0, IsChecking);
    GrowsBy(|s3.queue|, n);
    Handover(s4, base, n, IsDropping, IsChecking, IsChecking);
    var a5, s5 := AllTurn(s4, limits, base, n, 0, IsDropping);
    GrowsBy(|s4.queue|, n);
    Handover(s5, base, n, IsChecking, IsDropping, IsFinished);
    var a6;
    a6, s := AllTurn(s5, limits, base, n, 0, IsChecking);
    GrowsBy(|s5.queue|, n);
    ReachesJoin(INITIAL, limits, a1, s1, a2, s2);
    ReachesJoin(INITIAL, limits, a1 + a2, s2, a3, s3);
    ReachesJoin(INITIAL, limits, a1 + a2 + a3, s3, a4, s4);
    ReachesJoin(INITIAL, limits, a1 + a2 + a3 + a4, s4, a5, s5);
    ReachesJoin(INITIAL, limits, a1 + a2 + a3 + a4 + a5, s5, a6, s);
    actions := a1 + a2 + a3 + a4 + a5 + a6;
    Gone(s, base, n);
  }

  lemma Gone(s: State, base: nat, n: nat)
    requires Burst(s, base, n, n, IsFinished, IsChecking)
    ensures InFlight(s.handlers) == {} && !s.cleared
  {
    Finished(s, base, n, IsChecking);
  }
}
