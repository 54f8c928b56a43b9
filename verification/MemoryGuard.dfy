/**
 * The memory guard (packages/shared/src/memoryGuard.ts): a policy with two thresholds and streak
 * counters, first alone over any run of samples, then in closed loop with the resources it stops and
 * starts (apps/worker/src/jobs/memoryGuard.ts).
 */
module MemoryGuard {
  import opened Wrappers
  import opened Text
  import opened StableSort

  datatype Priority = Critical | Normal | Low

  datatype Status = Running | Stopped | Other

  datatype Kind = Application | Service

  datatype Candidate = Candidate(
    kind: Kind, id: string, name: string, priority: Priority,
    memBytes: Option<int>, shedByGuard: bool, status: Status)

  datatype Settings = Settings(enabled: bool, threshold: real, recover: real)

  datatype GuardState = GuardState(high: nat, low: nat)

  datatype Action = Stop(target: Candidate) | Start(target: Candidate) | NoAction

  datatype Outcome = Outcome(state: GuardState, action: Action)

  const INITIAL := GuardState(0, 0)
  const SHED_AFTER_SAMPLES := 2
  const RESTORE_AFTER_SAMPLES := 3
  const MEMORY_GUARD_MIN_GAP := 5

  // ---------------------------------------------------------------- choosing a resource

  /** The two things the guard does. */
  datatype Direction = Shed | Restore

  function Tier(p: Priority): nat {
    match p case Low => 0 case Normal => 1 case Critical => 2
  }

  function Memory(c: Candidate): int {
    if c.memBytes.None? then -1 else c.memBytes.value
  }

  predicate MayBeStopped(c: Candidate) {
    c.status.Running? && !c.priority.Critical? && !c.shedByGuard
  }

  predicate MayReturn(c: Candidate) {
    c.shedByGuard && c.status.Stopped?
  }

  predicate Eligible(d: Direction, c: Candidate) {
    if d.Shed? then MayBeStopped(c) else MayReturn(c)
  }

  /** Stop the lowest tier first and the biggest memory user within it; ties by name. */
  predicate ShedBefore(a: Candidate, b: Candidate) {
    || Tier(a.priority) < Tier(b.priority)
    || (Tier(a.priority) == Tier(b.priority)
        && (Memory(a) > Memory(b) || (Memory(a) == Memory(b) && LexLeq(a.name, b.name))))
  }

  /** Bring the most important tier back first; ties by name. */
  predicate RestoreBefore(a: Candidate, b: Candidate) {
    Tier(a.priority) > Tier(b.priority) || (Tier(a.priority) == Tier(b.priority) && LexLeq(a.name, b.name))
  }

  predicate Before(d: Direction, a: Candidate, b: Candidate) {
    if d.Shed? then ShedBefore(a, b) else RestoreBefore(a, b)
  }

  function First(candidates: seq<Candidate>): Option<Candidate> {
    if candidates == [] then None else Some(candidates[0])
  }

  function PickToShed(candidates: seq<Candidate>): Option<Candidate> {
    First(Sort(Filter(candidates, MayBeStopped), ShedBefore))
  }

  function PickToRestore(candidates: seq<Candidate>): Option<Candidate> {
    First(Sort(Filter(candidates, MayReturn), RestoreBefore))
  }

  function Pick(d: Direction, candidates: seq<Candidate>): Option<Candidate> {
    if d.Shed? then PickToShed(candidates) else PickToRestore(candidates)
  }

  lemma {:induction false} NamesAreOrdered()
    ensures forall a, b :: LexLeq(a, b) || LexLeq(b, a)
    ensures forall a, b, c :: LexLeq(a, b) && LexLeq(b, c) ==> LexLeq(a, c)
  {
    forall a, b ensures LexLeq(a, b) || LexLeq(b, a) {
      LexTotal(a, b);
    }
    forall a, b, c | LexLeq(a, b) && LexLeq(b, c) ensures LexLeq(a, c) {
      if a != b && b != c {
        LexTransitive(a, b, c);
      }
    }
  }

  lemma {:induction false} OrdersAreTotal()
    ensures TotalPreorder(ShedBefore) && TotalPreorder(RestoreBefore)
  {
    NamesAreOrdered();
    hide LexLeq;
  }

  lemma {:induction false} FirstIsLeast(
      candidates: seq<Candidate>, p: Candidate -> bool, leq: (Candidate, Candidate) -> bool)
    requires TotalPreorder(leq)
    ensures var r := First(Sort(Filter(candidates, p), leq));
            && (r.None? <==> forall c :: c in candidates ==> !p(c))
            && (r.Some? ==> r.value in candidates && p(r.value)
                            && forall c :: c in candidates && p(c) ==> leq(r.value, c))
  {
    var kept := Filter(candidates, p);
    SortPermutes(kept, leq);
    SortSorts(kept, leq);
    var sorted := Sort(kept, leq);
    forall c | c in candidates && p(c) ensures sorted != [] && leq(sorted[0], c) {
      var j :| 0 <= j < |sorted| && sorted[j] == c;
      assert leq(c, c);
    }
    if sorted != [] {
      assert sorted[0] in kept;
    }
  }

  /** The pick is an eligible resource that comes before every other, and there is one if any is eligible. */
  lemma {:induction false} PickIsFirst(d: Direction, candidates: seq<Candidate>)
    ensures var r := Pick(d, candidates);
            && (r.None? <==> forall c :: c in candidates ==> !Eligible(d, c))
            && (r.Some? ==> r.value in candidates && Eligible(d, r.value)
                            && forall c :: c in candidates && Eligible(d, c) ==> Before(d, r.value, c))
  {
    OrdersAreTotal();
    var r := Pick(d, candidates);
    if d.Shed? {
      FirstIsLeast(candidates, MayBeStopped, ShedBefore);
      assert r == First(Sort(Filter(candidates, MayBeStopped), ShedBefore));
      forall c | c in candidates && Eligible(d, c) && r.Some? ensures Before(d, r.value, c) {
        assert ShedBefore(r.value, c);
      }
    } else {
      FirstIsLeast(candidates, MayReturn, RestoreBefore);
      forall c | c in candidates && Eligible(d, c) && r.Some? ensures Before(d, r.value, c) {
        assert RestoreBefore(r.value, c);
      }
    }
  }

  /** A critical resource is never stopped, and only what the guard stopped is started. */
  lemma {:induction false} PicksAreAllowed(candidates: seq<Candidate>)
    ensures PickToShed(candidates).Some? ==> !PickToShed(candidates).value.priority.Critical?
    ensures PickToRestore(candidates).Some? ==> PickToRestore(candidates).value.shedByGuard
  {
    PickIsFirst(Shed, candidates);
    PickIsFirst(Restore, candidates);
  }

  /**
   * Which resource is stopped: of those that may be, one of the lowest tier, of these the biggest, of these
   * the first.
   */
  lemma {:induction false} StopsTheLeastImportant(candidates: seq<Candidate>, c: Candidate)
    requires c in candidates && c.status == Running && c.priority != Critical && !c.shedByGuard
    ensures var pick := PickToShed(candidates);
            && pick.Some? && pick.value in candidates
            && var t := pick.value;
               var used := if t.memBytes.Some? then t.memBytes.value else -1;
               var other := if c.memBytes.Some? then c.memBytes.value else -1;
               && t.status == Running && t.priority != Critical && !t.shedByGuard
               && (c.priority == Low ==> t.priority == Low)
               && (t.priority == c.priority ==> used >= other)
               && (t.priority == c.priority && used == other ==> LexLeq(t.name, c.name))
  {
    hide PickToShed, LexLeq;
    PickIsFirst(Shed, candidates);
    assert Eligible(Shed, c);
  }

  /** Which resource is started: of those that the guard stopped, one of the highest tier, of these the first. */
  lemma {:induction false} StartsTheMostImportant(candidates: seq<Candidate>, c: Candidate)
    requires c in candidates && c.shedByGuard && c.status == Stopped
    ensures var pick := PickToRestore(candidates);
            && pick.Some? && pick.value in candidates
            && var t := pick.value;
               && t.shedByGuard && t.status == Stopped
               && (c.priority == Critical ==> t.priority == Critical)
               && (c.priority == Normal ==> t.priority != Low)
               && (t.priority == c.priority ==> LexLeq(t.name, c.name))
  {
    hide PickToRestore, LexLeq;
    PickIsFirst(Restore, candidates);
    assert Eligible(Restore, c);
  }

  /** Nothing is picked if nothing may be. */
  lemma {:induction false} PicksNothingOtherwise(candidates: seq<Candidate>)
    ensures (forall c :: c in candidates ==> c.status != Running || c.priority == Critical || c.shedByGuard) ==>
              PickToShed(candidates) == None
    ensures (forall c :: c in candidates ==> !c.shedByGuard || c.status != Stopped) ==>
              PickToRestore(candidates) == None
  {
    hide PickToShed, PickToRestore;
    PickIsFirst(Shed, candidates);
    PickIsFirst(Restore, candidates);
  }

  // ---------------------------------------------------------------- the policy

  function GuardStep(state: GuardState, mem: real, settings: Settings, candidates: seq<Candidate>): Outcome {
    if !settings.enabled then Outcome(INITIAL, NoAction)
    else if mem >= settings.threshold then
      var high := state.high + 1;
      var target := if high >= SHED_AFTER_SAMPLES then PickToShed(candidates) else None;
      if target.Some? then Outcome(INITIAL, Stop(target.value)) else Outcome(GuardState(high, 0), NoAction)
    else if mem <= settings.recover then
      var low := state.low + 1;
      var target := if low >= RESTORE_AFTER_SAMPLES then PickToRestore(candidates) else None;
      if target.Some? then Outcome(INITIAL, Start(target.value)) else Outcome(GuardState(0, low), NoAction)
    else Outcome(INITIAL, NoAction)
  }

  /** The limits a user may set; `None` is "valid". */
  function ValidateLimits(threshold: int, recover: int): Option<string> {
    if threshold < 70 || threshold > 99 then Some("the stop threshold must be a whole number between 70 and 99")
    else if recover < 40 then Some("the recover level must be a whole number of at least 40")
    else if recover > threshold - MEMORY_GUARD_MIN_GAP then
      Some("the recover level must be at least 5 points below the stop threshold")
    else None
  }

  datatype Tick = Tick(mem: real, settings: Settings, candidates: seq<Candidate>)

  predicate IsHigh(t: Tick) {
    t.settings.enabled && t.mem >= t.settings.threshold
  }

  predicate IsLow(t: Tick) {
    t.settings.enabled && t.mem < t.settings.threshold && t.mem <= t.settings.recover
  }

  predicate Qualifies(d: Direction, t: Tick) {
    if d.Shed? then IsHigh(t) else IsLow(t)
  }

  function Needed(d: Direction): nat {
    if d.Shed? then SHED_AFTER_SAMPLES else RESTORE_AFTER_SAMPLES
  }

  /** The tick `k` before the latest one. */
  function Recent(ticks: seq<Tick>, k: nat): Tick
    requires k < |ticks|
  {
    ticks[|ticks| - 1 - k]
  }

  /** The run without its `k` latest ticks. */
  function Earlier(ticks: seq<Tick>, k: nat): seq<Tick>
    requires k <= |ticks|
  {
    ticks[..|ticks| - k]
  }

  function StateAfter(ticks: seq<Tick>): GuardState
    decreases |ticks|, 1
  {
    if ticks == [] then INITIAL else LastOutcome(ticks).state
  }

  function LastOutcome(ticks: seq<Tick>): Outcome
    requires ticks != []
    decreases |ticks|, 0
  {
    var t := ticks[|ticks| - 1];
    GuardStep(StateAfter(ticks[..|ticks| - 1]), t.mem, t.settings, t.candidates)
  }

  predicate ActsLast(ticks: seq<Tick>) {
    ticks != [] && !LastOutcome(ticks).action.NoAction?
  }

  /** How many of the latest ticks qualify in a row, all of them after the last action before the latest tick. */
  function Streak(d: Direction, ticks: seq<Tick>): nat {
    if ticks == [] || !Qualifies(d, ticks[|ticks| - 1]) then 0
    else
      var before := ticks[..|ticks| - 1];
      1 + if ActsLast(before) then 0 else Streak(d, before)
  }

  /** The counters are the streaks, restarted by an action; they are never both positive. */
  lemma {:induction false} CountersAreStreaks(ticks: seq<Tick>)
    ensures StateAfter(ticks)
         == if ActsLast(ticks) then INITIAL else GuardState(Streak(Shed, ticks), Streak(Restore, ticks))
    ensures StateAfter(ticks).high == 0 || StateAfter(ticks).low == 0
  {
    if ticks != [] {
      CountersAreStreaks(ticks[..|ticks| - 1]);
    }
  }

  /**
   * A stop happens exactly when the streak of high samples since the last action is at least two and
   * something may be stopped, a start exactly when the streak of low ones is at least three and something may return.
   */
  lemma {:induction false} ActsExactlyWhen(ticks: seq<Tick>)
    requires ticks != []
    ensures var t, action := ticks[|ticks| - 1], LastOutcome(ticks).action;
            && (action.Stop? <==> Streak(Shed, ticks) >= 2 && exists c :: c in t.candidates && Eligible(Shed, c))
            && (action.Start? <==> Streak(Restore, ticks) >= 3 && exists c :: c in t.candidates && Eligible(Restore, c))
            && (action.Stop? ==> Some(action.target) == PickToShed(t.candidates))
            && (action.Start? ==> Some(action.target) == PickToRestore(t.candidates))
  {
    var before, t := ticks[..|ticks| - 1], ticks[|ticks| - 1];
    CountersAreStreaks(before);
    StreakUnfold(Shed, ticks);
    StreakUnfold(Restore, ticks);
    PickIsFirst(Shed, t.candidates);
    PickIsFirst(Restore, t.candidates);
    assert LastOutcome(ticks) == GuardStep(StateAfter(before), t.mem, t.settings, t.candidates);
    hide PickToShed, PickToRestore, Eligible, StateAfter, LastOutcome, Streak;
  }

  lemma {:induction false} StreakUnfold(d: Direction, ticks: seq<Tick>)
    requires ticks != []
    ensures var before := ticks[..|ticks| - 1];
            Streak(d, ticks) == if !Qualifies(d, ticks[|ticks| - 1]) then 0
                                else 1 + if ActsLast(before) then 0 else Streak(d, before)
  {
  }

  lemma {:induction false} StreakLooksBack(d: Direction, ticks: seq<Tick>, k: nat)
    requires k < Streak(d, ticks)
    ensures k < |ticks| && Qualifies(d, Recent(ticks, k))
    ensures 0 < k ==> !ActsLast(Earlier(ticks, k))
    decreases k
  {
    hide ActsLast;
    if k > 0 {
      var before := ticks[..|ticks| - 1];
      StreakLooksBack(d, before, k - 1);
      assert Earlier(before, k - 1) == Earlier(ticks, k);
    }
  }

  ghost predicate Idle(ticks: seq<Tick>) {
    ticks != [] && LastOutcome(ticks).action == NoAction
  }

  /** The exact condition of a stop: two high samples, no action at the first, and something that may be stopped. */
  lemma {:induction false} StopsExactlyWhen(ticks: seq<Tick>)
    requires ticks != []
    ensures var n := |ticks| - 1;
            LastOutcome(ticks).action.Stop? <==>
            && n >= 1 && IsHigh(ticks[n]) && IsHigh(ticks[n - 1]) && Idle(ticks[..n])
            && exists c :: c in ticks[n].candidates && c.status == Running && c.priority != Critical && !c.shedByGuard
  {
    hide LastOutcome, StateAfter, Streak;
    var n := |ticks| - 1;
    ActsExactlyWhen(ticks);
    StreakUnfold(Shed, ticks);
    if n >= 1 {
      StreakUnfold(Shed, ticks[..n]);
      assert ticks[..n][n - 1] == ticks[n - 1];
    } else {
      NoStreak(Shed, ticks[..n]);
    }
    assert forall c :: Eligible(Shed, c) <==> c.status == Running && c.priority != Critical && !c.shedByGuard;
  }

  lemma {:induction false} NoStreak(d: Direction, ticks: seq<Tick>)
    requires ticks == []
    ensures Streak(d, ticks) == 0 && !ActsLast(ticks)
  {
  }

  /** The exact condition of a start: three low samples, no action at the first two, and something the guard stopped. */
  lemma {:induction false} StartsExactlyWhen(ticks: seq<Tick>)
    requires ticks != []
    ensures var n := |ticks| - 1;
            LastOutcome(ticks).action.Start? <==>
            && n >= 2 && IsLow(ticks[n]) && IsLow(ticks[n - 1]) && IsLow(ticks[n - 2])
            && Idle(ticks[..n]) && Idle(ticks[..n - 1])
            && exists c :: c in ticks[n].candidates && c.shedByGuard && c.status == Stopped
  {
    hide LastOutcome, StateAfter, Streak;
    var n := |ticks| - 1;
    ActsExactlyWhen(ticks);
    StreakUnfold(Restore, ticks);
    if n >= 1 {
      StreakUnfold(Restore, ticks[..n]);
      assert ticks[..n][n - 1] == ticks[n - 1] && ticks[..n][..n - 1] == ticks[..n - 1];
      if n >= 2 {
        StreakUnfold(Restore, ticks[..n - 1]);
        assert ticks[..n - 1][n - 2] == ticks[n - 2];
      } else {
        NoStreak(Restore, ticks[..n - 1]);
      }
    } else {
      NoStreak(Restore, ticks[..n]);
    }
    assert forall c :: Eligible(Restore, c) <==> c.shedByGuard && c.status == Stopped;
  }

  /** Every stop follows two high samples, every start three low ones, and none of the ticks between acted. */
  lemma {:induction false} ActionsAreEarned(ticks: seq<Tick>, d: Direction)
    requires ticks != []
    requires if d.Shed? then LastOutcome(ticks).action.Stop? else LastOutcome(ticks).action.Start?
    ensures Needed(d) <= |ticks|
    ensures forall k :: 0 <= k < Needed(d) ==> Qualifies(d, Recent(ticks, k))
    ensures forall k :: 0 < k < Needed(d) ==> !ActsLast(Earlier(ticks, k))
  {
    ActsExactlyWhen(ticks);
    hide Streak, LastOutcome, ActsLast;
    StreakLooksBack(d, ticks, 0);
    StreakLooksBack(d, ticks, 1);
    if d.Restore? {
      StreakLooksBack(d, ticks, 2);
    }
  }

  /** With limits a user may set, no sample is both high and low, and five points of hysteresis lie between. */
  lemma {:induction false} ValidLimitsLeaveAGap(threshold: int, recover: int)
    ensures ValidateLimits(threshold, recover).None? <==>
            70 <= threshold <= 99 && 40 <= recover && recover + 5 <= threshold
    ensures ValidateLimits(threshold, recover).None? ==>
              var limits := Settings(true, threshold as real, recover as real);
              forall high: real, low: real ::
                IsHigh(Tick(high, limits, [])) && IsLow(Tick(low, limits, [])) ==> high >= low + 5.0
  {
  }

  // ---------------------------------------------------------------- the closed loop

  type World = seq<Candidate>

  ghost predicate DistinctIds(w: World) {
    forall i, j :: 0 <= i < j < |w| ==> !(w[i].kind == w[j].kind && w[i].id == w[j].id)
  }

  function Carry(d: Direction, c: Candidate): Candidate {
    if d.Shed? then c.(shedByGuard := true, status := Stopped) else c.(shedByGuard := false, status := Running)
  }

  /** What an action does to the resources: the named one is stopped and marked, or started and unmarked. */
  function CarryOut(action: Action, w: World): (w': World)
    ensures |w'| == |w|
  {
    if action.NoAction? then w
    else
      seq(|w|, i requires 0 <= i < |w| =>
        if w[i].kind == action.target.kind && w[i].id == action.target.id
        then Carry(if action.Stop? then Shed else Restore, w[i]) else w[i])
  }

  /** What the worker reads once a minute: the memory of the server and that of each resource. */
  datatype Sample = Sample(mem: real, usage: nat -> Option<int>)

  function Reread(w: World, usage: nat -> Option<int>): (w': World)
    ensures |w'| == |w|
  {
    seq(|w|, i requires 0 <= i < |w| => w[i].(memBytes := usage(i)))
  }

  datatype Loop = Loop(state: GuardState, world: World)

  function LoopStep(settings: Settings, l: Loop, sample: Sample): Loop {
    var w := Reread(l.world, sample.usage);
    var r := GuardStep(l.state, sample.mem, settings, w);
    Loop(r.state, CarryOut(r.action, w))
  }

  function LoopRun(settings: Settings, l: Loop, samples: seq<Sample>): Loop
    decreases |samples|
  {
    if samples == [] then l else LoopRun(settings, LoopStep(settings, l, samples[0]), samples[1..])
  }

  ghost predicate AllQualify(d: Direction, settings: Settings, samples: seq<Sample>) {
    forall i :: 0 <= i < |samples| ==> Qualifies(d, Tick(samples[i].mem, settings, []))
  }

  /** The world in which the resources at these positions have been acted on. */
  function Marked(d: Direction, w: World, acted: set<nat>): (w': World)
    ensures |w'| == |w|
  {
    seq(|w|, i requires 0 <= i < |w| => if i in acted then Carry(d, w[i]) else w[i])
  }

  /** The same resources in the same order and state, whatever memory they use. */
  ghost predicate SameButMemory(v: World, w: World) {
    |v| == |w| && forall i :: 0 <= i < |w| ==> v[i] == w[i].(memBytes := v[i].memBytes)
  }

  ghost function EligibleAt(d: Direction, w: World): set<nat> {
    set i: nat | i < |w| && Eligible(d, w[i])
  }

  /** The part of the order that memory does not change: the tier, and for a start also the name. */
  predicate Precedes(d: Direction, a: Candidate, b: Candidate) {
    match d
    case Shed => Tier(a.priority) <= Tier(b.priority)
    case Restore => RestoreBefore(a, b)
  }

  /** Only eligible resources were acted on, and none that was left out should have come before one that was not. */
  ghost predicate InOrder(d: Direction, w: World, acted: set<nat>) {
    && acted <= EligibleAt(d, w)
    && forall i, j :: i in acted && j in EligibleAt(d, w) - acted ==> Precedes(d, w[i], w[j])
  }

  function Act(d: Direction, c: Candidate): Action {
    if d.Shed? then Stop(c) else Start(c)
  }

  /** One action in closed loop: the samples that earn it, and the resource it takes by the latest reading. */
  lemma {:induction false} OneAction(d: Direction, settings: Settings, v: World, samples: seq<Sample>)
    requires |samples| >= Needed(d) && AllQualify(d, settings, samples)
    requires Pick(d, Reread(v, samples[Needed(d) - 1].usage)).Some?
    ensures var w := Reread(v, samples[Needed(d) - 1].usage);
            LoopRun(settings, Loop(INITIAL, v), samples)
            == LoopRun(settings, Loop(INITIAL, CarryOut(Act(d, Pick(d, w).value), w)), samples[Needed(d)..])
  {
    hide PickToShed, PickToRestore, LoopRun;
    assert Qualifies(d, Tick(samples[0].mem, settings, [])) && Qualifies(d, Tick(samples[1].mem, settings, []));
    var l1 := LoopStep(settings, Loop(INITIAL, v), samples[0]);
    RereadTwice(v, samples[0].usage, samples[1].usage);
    var l2 := LoopStep(settings, l1, samples[1]);
    RunUnfold(settings, Loop(INITIAL, v), samples);
    RunUnfold(settings, l1, samples[1..]);
    assert samples[1..][1..] == samples[2..];
    if d.Restore? {
      assert Qualifies(d, Tick(samples[2].mem, settings, []));
      RereadTwice(v, samples[1].usage, samples[2].usage);
      assert l2 == Loop(GuardState(0, 2), Reread(v, samples[1].usage));
      RunUnfold(settings, l2, samples[2..]);
      assert samples[2..][1..] == samples[3..];
    }
  }

  lemma {:induction false} RereadTwice(v: World, first: nat -> Option<int>, later: nat -> Option<int>)
    ensures Reread(Reread(v, first), later) == Reread(v, later)
  {
  }

  lemma {:induction false} RunUnfold(settings: Settings, l: Loop, samples: seq<Sample>)
    requires samples != []
    ensures LoopRun(settings, l, samples) == LoopRun(settings, LoopStep(settings, l, samples[0]), samples[1..])
  {
  }

  /** The next resource to act on, from any reading of a world in which some have been acted on. */
  lemma {:induction false} PickFromMarked(d: Direction, w: World, acted: set<nat>, v: World) returns (i: nat)
    requires InOrder(d, w, acted) && acted != EligibleAt(d, w) && SameButMemory(v, Marked(d, w, acted))
    ensures i in EligibleAt(d, w) && i !in acted && i < |w|
    ensures Pick(d, v) == Some(v[i])
    ensures InOrder(d, w, acted + {i})
  {
    hide Pick, LexLeq, Marked;
    PickIsFirst(d, v);
    MarkedAt(d, w, acted, v);
    assert acted + (EligibleAt(d, w) - acted) == EligibleAt(d, w);
    assert EligibleAt(d, w) - acted != {};
    var j :| j in EligibleAt(d, w) - acted;
    assert v[j] in v && Eligible(d, v[j]);
    var c := Pick(d, v).value;
    i :| 0 <= i < |v| && v[i] == c;
    assert forall k :: k in EligibleAt(d, w) - acted ==> v[k] in v && Eligible(d, v[k]);
  }

  lemma {:induction false} MarkedAt(d: Direction, w: World, acted: set<nat>, v: World)
    requires acted <= EligibleAt(d, w) && SameButMemory(v, Marked(d, w, acted))
    ensures |v| == |w|
    ensures forall k: nat :: k < |w| ==> (Eligible(d, v[k]) <==> k in EligibleAt(d, w) && k !in acted)
    ensures forall k: nat :: k < |w| && k !in acted ==> v[k] == w[k].(memBytes := v[k].memBytes)
  {
    forall k: nat | k < |w|
      ensures (Eligible(d, v[k]) <==> k in EligibleAt(d, w) && k !in acted)
              && (k !in acted ==> v[k] == w[k].(memBytes := v[k].memBytes))
    {
      assert v[k] == Marked(d, w, acted)[k].(memBytes := v[k].memBytes);
    }
  }

  lemma {:induction false} ActOnOne(d: Direction, w: World, acted: set<nat>, v: World, i: nat)
    requires DistinctIds(w) && i < |w| && i !in acted && SameButMemory(v, Marked(d, w, acted))
    ensures SameButMemory(CarryOut(Act(d, v[i]), v), Marked(d, w, acted + {i}))
  {
    var m, m', v' := Marked(d, w, acted), Marked(d, w, acted + {i}), CarryOut(Act(d, v[i]), v);
    forall k | 0 <= k < |w| ensures v'[k] == m'[k].(memBytes := v'[k].memBytes) {
      assert v[k] == m[k].(memBytes := v[k].memBytes) && v[i] == m[i].(memBytes := v[i].memBytes);
    }
  }

  /**
   * From fresh counters, `k` times the needed number of qualifying samples act on exactly `k` more of the
   * eligible resources, in order, touch nothing else and leave the counters fresh, whatever memory the resources
   * are read to use meanwhile.
   */
  lemma {:induction false} Drains(
      d: Direction, settings: Settings, w: World, acted: set<nat>, v: World, samples: seq<Sample>, k: nat)
    returns (acted': set<nat>)
    requires DistinctIds(w) && InOrder(d, w, acted) && SameButMemory(v, Marked(d, w, acted))
    requires |acted| + k <= |EligibleAt(d, w)|
    requires |samples| == Needed(d) * k && AllQualify(d, settings, samples)
    ensures InOrder(d, w, acted') && |acted'| == |acted| + k
    ensures var end := LoopRun(settings, Loop(INITIAL, v), samples);
            end.state == INITIAL && SameButMemory(end.world, Marked(d, w, acted'))
    decreases k
  {
    hide LoopRun, InOrder, Marked, CarryOut, Before, DistinctIds, Pick, EligibleAt, SameButMemory, Reread;
    if k == 0 {
      acted' := acted;
      NothingHappens(settings, Loop(INITIAL, v), samples);
    } else {
      NeededOnce(d, k);
      assert acted != EligibleAt(d, w);
      var latest := Reread(v, samples[Needed(d) - 1].usage);
      RereadIsSame(v, samples[Needed(d) - 1].usage, Marked(d, w, acted));
      var i := PickFromMarked(d, w, acted, latest);
      OneAction(d, settings, v, samples);
      ActOnOne(d, w, acted, latest, i);
      OneMore(acted, i);
      RestQualifies(d, settings, samples, Needed(d));
      acted' := Drains(d, settings, w, acted + {i}, CarryOut(Act(d, latest[i]), latest), samples[Needed(d)..], k - 1);
    }
  }

  lemma {:induction false} RereadIsSame(v: World, usage: nat -> Option<int>, w: World)
    requires SameButMemory(v, w)
    ensures SameButMemory(Reread(v, usage), w)
  {
    assert forall i :: 0 <= i < |w| ==> v[i] == w[i].(memBytes := v[i].memBytes);
  }

  lemma {:induction false} NothingHappens(settings: Settings, l: Loop, samples: seq<Sample>)
    requires samples == []
    ensures LoopRun(settings, l, samples) == l
  {
  }

  lemma {:induction false} OneMore(acted: set<nat>, i: nat)
    requires i !in acted
    ensures |acted + {i}| == |acted| + 1
  {
  }

  lemma {:induction false} NeededOnce(d: Direction, k: nat)
    requires k > 0
    ensures Needed(d) <= Needed(d) * k && Needed(d) * k - Needed(d) == Needed(d) * (k - 1)
  {
  }

  lemma {:induction false} RestQualifies(d: Direction, settings: Settings, samples: seq<Sample>, n: nat)
    requires AllQualify(d, settings, samples) && n <= |samples|
    ensures AllQualify(d, settings, samples[n..])
  {
    forall i | 0 <= i < |samples[n..]| ensures Qualifies(d, Tick(samples[n..][i].mem, settings, [])) {
      assert Qualifies(d, Tick(samples[n + i].mem, settings, []));
    }
  }

  lemma {:induction false} SubsetOfSameSize(a: set<nat>, b: set<nat>)
    requires a <= b && |a| == |b|
    ensures a == b
  {
    assert b == a + (b - a);
    assert |b| == |a| + |b - a|;
  }

  lemma {:induction false} MarkNone(d: Direction, w: World)
    ensures Marked(d, w, {}) == w && InOrder(d, w, {}) && SameButMemory(w, w)
  {
  }

  lemma {:induction false} ActedIsEligible(d: Direction, w: World, acted: set<nat>)
    requires InOrder(d, w, acted)
    ensures acted <= EligibleAt(d, w)
  {
  }

  /** Enough samples act on all eligible resources. */
  lemma {:induction false} DrainsAll(d: Direction, settings: Settings, w: World, v: World, samples: seq<Sample>)
    requires DistinctIds(w) && SameButMemory(v, w) && AllQualify(d, settings, samples)
    requires |samples| == Needed(d) * |EligibleAt(d, w)|
    ensures var end := LoopRun(settings, Loop(INITIAL, v), samples);
            end.state == INITIAL && SameButMemory(end.world, Marked(d, w, EligibleAt(d, w)))
  {
    hide LoopRun, InOrder, Marked, SameButMemory, EligibleAt, DistinctIds;
    MarkNone(d, w);
    var acted := Drains(d, settings, w, {}, v, samples, |EligibleAt(d, w)|);
    ActedIsEligible(d, w, acted);
    SubsetOfSameSize(acted, EligibleAt(d, w));
  }

  /**
   * Under pressure, with n resources that may be stopped, 2n samples at or above the threshold stop
   * exactly these n (after 2k samples, k of them in order), and nothing else changes.
   */
  lemma {:induction false} PressureShedsAll(settings: Settings, w: World, samples: seq<Sample>)
    requires DistinctIds(w) && AllQualify(Shed, settings, samples)
    requires |samples| == 2 * |EligibleAt(Shed, w)|
    ensures var end := LoopRun(settings, Loop(INITIAL, w), samples);
            end.state == INITIAL && SameButMemory(end.world, Marked(Shed, w, EligibleAt(Shed, w)))
  {
    MarkNone(Shed, w);
    DrainsAll(Shed, settings, w, w, samples);
  }

  /** One resource after such pressure: stopped and marked if it was running, not critical and not marked. */
  lemma {:induction false} PressureStopsEach(settings: Settings, w: World, samples: seq<Sample>, i: nat)
    requires DistinctIds(w) && AllQualify(Shed, settings, samples) && i < |w|
    requires |samples| == 2 * |set k: nat | k < |w| && w[k].status == Running && w[k].priority != Critical
                                            && !w[k].shedByGuard|
    ensures var end, c := LoopRun(settings, Loop(INITIAL, w), samples).world, w[i];
            && |end| == |w|
            && end[i].(memBytes := c.memBytes)
               == if c.status == Running && c.priority != Critical && !c.shedByGuard
                  then c.(status := Stopped, shedByGuard := true) else c
  {
    hide LoopRun;
    assert EligibleAt(Shed, w) == set k: nat | k < |w| && w[k].status == Running && w[k].priority != Critical
                                               && !w[k].shedByGuard;
    PressureShedsAll(settings, w, samples);
    var end, m := LoopRun(settings, Loop(INITIAL, w), samples).world, Marked(Shed, w, EligibleAt(Shed, w));
    assert end[i] == m[i].(memBytes := end[i].memBytes);
  }

  lemma {:induction false} AfterCalm(w: World)
    requires EligibleAt(Restore, w) == {}
    ensures var m := Marked(Shed, w, EligibleAt(Shed, w));
            && EligibleAt(Restore, m) == EligibleAt(Shed, w)
            && Marked(Restore, m, EligibleAt(Restore, m)) == w
  {
    var m := Marked(Shed, w, EligibleAt(Shed, w));
    forall i | 0 <= i < |w| ensures Eligible(Restore, m[i]) <==> Eligible(Shed, w[i]) {
      assert i !in EligibleAt(Restore, w);
    }
  }

  lemma {:induction false} MarkingKeepsIds(d: Direction, w: World, acted: set<nat>)
    requires DistinctIds(w)
    ensures DistinctIds(Marked(d, w, acted))
  {
  }

  lemma {:induction false} RunsCompose(settings: Settings, l: Loop, a: seq<Sample>, b: seq<Sample>)
    ensures LoopRun(settings, l, a + b) == LoopRun(settings, LoopRun(settings, l, a), b)
    decreases |a|
  {
    if a == [] {
      assert a + b == b;
    } else {
      assert (a + b)[1..] == a[1..] + b;
      RunsCompose(settings, LoopStep(settings, l, a[0]), a[1..], b);
    }
  }

  /**
   * What pressure stopped, calm brings back: after an episode long enough to stop everything and a calm
   * long enough to start it again, every resource is as before, up to the memory it uses.
   */
  lemma {:induction false} CalmUndoesPressure(settings: Settings, w: World, pressure: seq<Sample>, calm: seq<Sample>)
    requires DistinctIds(w) && EligibleAt(Restore, w) == {}
    requires AllQualify(Shed, settings, pressure) && |pressure| == 2 * |EligibleAt(Shed, w)|
    requires AllQualify(Restore, settings, calm) && |calm| == 3 * |EligibleAt(Shed, w)|
    ensures var end := LoopRun(settings, Loop(INITIAL, w), pressure + calm);
            end.state == INITIAL && SameButMemory(end.world, w)
  {
    hide LoopRun, InOrder, Marked, SameButMemory, EligibleAt, DistinctIds;
    RunsCompose(settings, Loop(INITIAL, w), pressure, calm);
    PressureShedsAll(settings, w, pressure);
    AfterCalm(w);
    var m := Marked(Shed, w, EligibleAt(Shed, w));
    MarkingKeepsIds(Shed, w, EligibleAt(Shed, w));
    DrainsAll(Restore, settings, m, LoopRun(settings, Loop(INITIAL, w), pressure).world, calm);
  }

  lemma {:induction false} NoneEligible(d: Direction, w: World)
    requires EligibleAt(d, w) == {}
    ensures Pick(d, w).None?
  {
    hide Pick;
    PickIsFirst(d, w);
    forall c | c in w ensures !Eligible(d, c) {
      var i :| 0 <= i < |w| && w[i] == c;
      assert i !in EligibleAt(d, w);
    }
  }

  lemma {:induction false} RereadKeepsEligible(d: Direction, w: World, usage: nat -> Option<int>)
    ensures EligibleAt(d, Reread(w, usage)) == EligibleAt(d, w) && SameButMemory(Reread(w, usage), w)
  {
  }

  /** With nothing left to stop, pressure changes no resource but keeps counting. */
  lemma {:induction false} NothingToStopKeepsCounting(settings: Settings, high: nat, w: World, samples: seq<Sample>)
    requires EligibleAt(Shed, w) == {} && AllQualify(Shed, settings, samples) && samples != []
    ensures var end := LoopRun(settings, Loop(GuardState(high, 0), w), samples);
            end.state == GuardState(high + |samples|, 0) && SameButMemory(end.world, w)
    decreases |samples|
  {
    hide PickToShed, LoopRun, Reread, EligibleAt;
    var latest := Reread(w, samples[0].usage);
    RereadKeepsEligible(Shed, w, samples[0].usage);
    NoneEligible(Shed, latest);
    assert Qualifies(Shed, Tick(samples[0].mem, settings, []));
    RunUnfold(settings, Loop(GuardState(high, 0), w), samples);
    if |samples| > 1 {
      RestQualifies(Shed, settings, samples, 1);
      NothingToStopKeepsCounting(settings, high + 1, latest, samples[1..]);
    } else {
      NothingHappens(settings, Loop(GuardState(high + 1, 0), latest), samples[1..]);
    }
  }
}
