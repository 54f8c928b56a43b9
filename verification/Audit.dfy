/**
 * The audit throttle (packages/shared/src/audit.ts): one event per key per window, in bounded memory.
 * Its unbounded form is the worker's own throttle (apps/worker/src/lib/throttle.ts).
 */
module Audit {
  import opened Wrappers

  datatype Settings = Settings(windowMs: int, maxKeys: int)

  datatype Call = Call(key: string, now: int)

  type Table = map<string, int>

  predicate Fresh(windowMs: int, last: int, now: int) {
    now - last < windowMs
  }

  /** The entries recorded less than a window ago. */
  function Live(windowMs: int, t: Table, now: int): Table {
    map k | k in t && Fresh(windowMs, t[k], now) :: t[k]
  }

  predicate Refused(windowMs: int, t: Table, c: Call) {
    c.key in t && Fresh(windowMs, t[c.key], c.now)
  }

  /** Whether a call throws everything away: it is recorded, the table is full, and sweeping does not help. */
  predicate Clears(s: Settings, seen: Table, c: Call) {
    && !Refused(s.windowMs, seen, c)
    && |seen| >= s.maxKeys
    && |Live(s.windowMs, seen, c.now)| >= s.maxKeys
  }

  function Recorded(s: Settings, seen: Table, c: Call): Table {
    var kept := if |seen| < s.maxKeys then seen
                else if Clears(s, seen, c) then map[]
                else Live(s.windowMs, seen, c.now);
    kept[c.key := c.now]
  }

  function Step(s: Settings, seen: Table, c: Call): Table {
    if Refused(s.windowMs, seen, c) then seen else Recorded(s, seen, c)
  }

  class AuditThrottle {
    const settings: Settings
    var seen: Table

    constructor (settings: Settings)
      ensures this.settings == settings && seen == map[]
    {
      this.settings := settings;
      seen := map[];
    }

    method Allow(key: string, now: int) returns (allowed: bool)
      modifies this
      ensures allowed == !Refused(settings.windowMs, old(seen), Call(key, now))
      ensures seen == Step(settings, old(seen), Call(key, now))
    {
      if key in seen && now - seen[key] < settings.windowMs { return false; }
      if |seen| >= settings.maxKeys {
        SweepExpired(now);
        if |seen| >= settings.maxKeys { seen := map[]; }
      }
      seen := seen[key := now];
      allowed := true;
    }

    method SweepExpired(now: int)
      modifies this
      ensures seen == Live(settings.windowMs, old(seen), now)
    {
      var keys := seen.Keys;
      while keys != {}
        invariant keys <= seen.Keys <= old(seen).Keys
        invariant forall k :: k in seen ==> seen[k] == old(seen)[k]
        invariant forall k :: k in old(seen) && k !in keys ==>
                    (k in seen <==> Fresh(settings.windowMs, old(seen)[k], now))
        decreases |keys|
      {
        var k :| k in keys;
        keys := keys - {k};
        if now - seen[k] >= settings.windowMs { seen := seen - {k}; }
      }
    }
  }

  // ---------------------------------------------------------------- runs

  function After(s: Settings, calls: seq<Call>): Table {
    if calls == [] then map[] else Step(s, After(s, calls[..|calls| - 1]), calls[|calls| - 1])
  }

  /** Whether the last call of a run is let through. */
  predicate LastAllowed(s: Settings, calls: seq<Call>)
    requires calls != []
  {
    !Refused(s.windowMs, After(s, calls[..|calls| - 1]), calls[|calls| - 1])
  }

  predicate LastClears(s: Settings, calls: seq<Call>)
    requires calls != []
  {
    Clears(s, After(s, calls[..|calls| - 1]), calls[|calls| - 1])
  }

  /** A throttle that never sweeps, and forgets only where the bounded one throws everything away. */
  function Unswept(s: Settings, calls: seq<Call>): Table {
    if calls == [] then map[]
    else
      var before, c := Unswept(s, calls[..|calls| - 1]), calls[|calls| - 1];
      if Refused(s.windowMs, before, c) then before
      else (if LastClears(s, calls) then map[] else before)[c.key := c.now]
  }

  /** The unbounded throttle: it never forgets. */
  function Unbounded(windowMs: int, calls: seq<Call>): Table {
    if calls == [] then map[]
    else
      var before, c := Unbounded(windowMs, calls[..|calls| - 1]), calls[|calls| - 1];
      if Refused(windowMs, before, c) then before else before[c.key := c.now]
  }

  ghost predicate Nondecreasing(calls: seq<Call>) {
    forall i, j :: 0 <= i < j < |calls| ==> calls[i].now <= calls[j].now
  }

  /** The bounded table lacks only entries that are over at `now`. */
  ghost predicate LacksOnlyExpired(windowMs: int, seen: Table, full: Table, now: int) {
    && (forall k :: k in seen ==> k in full && seen[k] == full[k])
    && (forall k :: k in full && k !in seen ==> !Fresh(windowMs, full[k], now))
  }

  lemma {:induction false} SweptTableFollows(s: Settings, calls: seq<Call>, now: int)
    requires Nondecreasing(calls) && (calls != [] ==> calls[|calls| - 1].now <= now)
    ensures LacksOnlyExpired(s.windowMs, After(s, calls), Unswept(s, calls), now)
    decreases |calls|
  {
    if calls != [] {
      SweptTableFollows(s, calls[..|calls| - 1], calls[|calls| - 1].now);
    }
  }

  /** Sweeping is invisible: only the clears can change an answer. */
  lemma {:induction false} SweepIsInvisible(s: Settings, calls: seq<Call>)
    requires calls != [] && Nondecreasing(calls)
    ensures LastAllowed(s, calls) == !Refused(s.windowMs, Unswept(s, calls[..|calls| - 1]), calls[|calls| - 1])
  {
    SweptTableFollows(s, calls[..|calls| - 1], calls[|calls| - 1].now);
  }

  /** At every call, fewer than `maxKeys` keys were recorded within the last window. */
  ghost predicate FewLiveKeys(s: Settings, calls: seq<Call>) {
    forall i :: 0 <= i < |calls| ==> |Within(s.windowMs, Unbounded(s.windowMs, calls[..i]), calls[i].now)| < s.maxKeys
  }

  /** The keys recorded less than `windowMs` before `now`. */
  function Within(windowMs: int, full: Table, now: int): set<string> {
    set k | k in full && now - full[k] < windowMs
  }

  lemma {:induction false} FewLiveKeysBefore(s: Settings, calls: seq<Call>, n: nat)
    requires FewLiveKeys(s, calls) && n <= |calls|
    ensures FewLiveKeys(s, calls[..n])
    ensures n < |calls| ==> |Within(s.windowMs, Unbounded(s.windowMs, calls[..n]), calls[n].now)| < s.maxKeys
  {
    hide Unbounded;
    assert forall i :: 0 <= i < n ==> calls[..n][..i] == calls[..i];
  }

  lemma {:induction false} FewLiveKeysNoClear(s: Settings, seen: Table, full: Table, c: Call)
    requires LacksOnlyExpired(s.windowMs, seen, full, c.now) && |Within(s.windowMs, full, c.now)| < s.maxKeys
    ensures !Clears(s, seen, c)
  {
    assert Live(s.windowMs, seen, c.now).Keys == Within(s.windowMs, full, c.now);
  }

  lemma {:induction false} NeverClears(s: Settings, calls: seq<Call>)
    requires Nondecreasing(calls) && FewLiveKeys(s, calls)
    ensures Unswept(s, calls) == Unbounded(s.windowMs, calls)
    ensures calls != [] ==> !LastClears(s, calls)
    decreases |calls|
  {
    if calls != [] {
      var n := |calls| - 1;
      FewLiveKeysBefore(s, calls, n);
      NeverClears(s, calls[..n]);
      SweptTableFollows(s, calls[..n], calls[n].now);
      hide After, FewLiveKeys, Clears;
      FewLiveKeysNoClear(s, After(s, calls[..n]), Unswept(s, calls[..n]), calls[n]);
    }
  }

  /** While few keys are live the bounded throttle answers every call exactly like the unbounded one. */
  lemma {:induction false} ThrottleIsUnbounded(s: Settings, calls: seq<Call>)
    requires calls != [] && Nondecreasing(calls) && FewLiveKeys(s, calls)
    ensures LastAllowed(s, calls)
         == !Refused(s.windowMs, Unbounded(s.windowMs, calls[..|calls| - 1]), calls[|calls| - 1])
  {
    FewLiveKeysBefore(s, calls, |calls| - 1);
    NeverClears(s, calls[..|calls| - 1]);
    SweepIsInvisible(s, calls);
  }

  /** A clear does show: any other key that was live is let through again at once. */
  lemma {:induction false} ClearForgets(s: Settings, seen: Table, c: Call, key: string)
    requires Clears(s, seen, c) && key in Live(s.windowMs, seen, c.now) && key != c.key
    ensures Refused(s.windowMs, seen, Call(key, c.now))
    ensures !Refused(s.windowMs, Step(s, seen, c), Call(key, c.now))
  {
  }

  /** Whether the last call throws away keys that are still live. */
  ghost predicate LosesLive(s: Settings, calls: seq<Call>)
    requires calls != []
  {
    LastClears(s, calls) && Live(s.windowMs, After(s, calls[..|calls| - 1]), calls[|calls| - 1].now) != map[]
  }

  ghost predicate NeverLosesLive(s: Settings, calls: seq<Call>) {
    forall n :: 0 < n <= |calls| ==> !LosesLive(s, calls[..n])
  }

  /** Any call that could come next gets the answer of the throttle that never forgets. */
  ghost predicate NextAsUnbounded(s: Settings, calls: seq<Call>) {
    forall c: Call :: (calls != [] ==> calls[|calls| - 1].now <= c.now) ==>
      Refused(s.windowMs, After(s, calls), c) == Refused(s.windowMs, Unbounded(s.windowMs, calls), c)
  }

  ghost predicate AlwaysAsUnbounded(s: Settings, calls: seq<Call>) {
    forall n :: 0 <= n <= |calls| ==> NextAsUnbounded(s, calls[..n])
  }

  lemma {:induction false} PrefixOfPrefix(calls: seq<Call>, m: nat)
    requires m <= |calls|
    ensures forall n :: 0 <= n <= m ==> calls[..m][..n] == calls[..n]
    ensures Nondecreasing(calls) ==> Nondecreasing(calls[..m])
  {
  }

  lemma {:induction false} UnboundedIsFollowed(s: Settings, calls: seq<Call>, now: int)
    requires Nondecreasing(calls) && (calls != [] ==> calls[|calls| - 1].now <= now) && NeverLosesLive(s, calls)
    ensures LacksOnlyExpired(s.windowMs, After(s, calls), Unbounded(s.windowMs, calls), now)
    decreases |calls|
  {
    if calls != [] {
      var m := |calls| - 1;
      PrefixOfPrefix(calls, m);
      assert calls[..|calls|] == calls;
      assert !LosesLive(s, calls);
      UnboundedIsFollowed(s, calls[..m], calls[m].now);
      CallFollows(s, After(s, calls[..m]), Unbounded(s.windowMs, calls[..m]), calls[m], now);
    }
  }

  /** One call, unless it throws live keys away. */
  lemma {:induction false} CallFollows(s: Settings, seen: Table, full: Table, c: Call, now: int)
    requires LacksOnlyExpired(s.windowMs, seen, full, c.now) && c.now <= now
    requires !(Clears(s, seen, c) && Live(s.windowMs, seen, c.now) != map[])
    ensures var next := if Refused(s.windowMs, full, c) then full else full[c.key := c.now];
            LacksOnlyExpired(s.windowMs, Step(s, seen, c), next, now)
  {
    if Clears(s, seen, c) {
      forall k | k in full ensures !Fresh(s.windowMs, full[k], c.now) {
        assert k !in Live(s.windowMs, seen, c.now);
      }
    }
  }

  /** The first time live keys are thrown away, one of them would be refused next and is not. */
  lemma {:induction false} FirstLossShows(s: Settings, calls: seq<Call>, n: nat)
    requires Nondecreasing(calls) && 0 < n <= |calls| && LosesLive(s, calls[..n])
    ensures !AlwaysAsUnbounded(s, calls)
    decreases n
  {
    hide LosesLive, NextAsUnbounded, Nondecreasing;
    PrefixOfPrefix(calls, n);
    if m :| 0 < m < n && LosesLive(s, calls[..m]) {
      FirstLossShows(s, calls, m);
    } else {
      PrefixOfPrefix(calls, n - 1);
      assert NeverLosesLive(s, calls[..n - 1]);
      LossShows(s, calls[..n]);
    }
  }

  lemma {:induction false} LossShows(s: Settings, calls: seq<Call>)
    requires calls != [] && Nondecreasing(calls) && LosesLive(s, calls) && NeverLosesLive(s, calls[..|calls| - 1])
    ensures !NextAsUnbounded(s, calls)
  {
    var m := |calls| - 1;
    var seen, c := After(s, calls[..m]), calls[m];
    UnboundedIsFollowed(s, calls[..m], c.now);
    var key :| key in Live(s.windowMs, seen, c.now);
    ClearForgets(s, seen, c, key);
    hide Live, Clears;
    var next := Call(key, c.now);
    assert Refused(s.windowMs, Unbounded(s.windowMs, calls), next);
    assert !Refused(s.windowMs, After(s, calls), next);
  }

  lemma {:induction false} ClearsLoseLive(s: Settings, calls: seq<Call>)
    requires calls != [] && s.maxKeys >= 1
    ensures LosesLive(s, calls) <==> LastClears(s, calls)
  {
  }

  /**
   * After every prefix of a run, every call that could come next is answered as by the throttle that never
   * forgets, if and only if no call of the run throws live keys away; a full table of at least one key has
   * such keys whenever it is cleared.
   */
  lemma {:induction false} UnboundedExactlyWhenNothingIsLost(s: Settings, calls: seq<Call>)
    requires Nondecreasing(calls)
    ensures AlwaysAsUnbounded(s, calls) <==> NeverLosesLive(s, calls)
    ensures s.maxKeys >= 1 ==>
              (NeverLosesLive(s, calls) <==> forall n :: 0 < n <= |calls| ==> !LastClears(s, calls[..n]))
  {
    hide LosesLive, LastClears;
    if s.maxKeys >= 1 {
      forall n | 0 < n <= |calls| ensures LosesLive(s, calls[..n]) <==> LastClears(s, calls[..n]) {
        ClearsLoseLive(s, calls[..n]);
      }
    }
    if NeverLosesLive(s, calls) {
      forall n | 0 <= n <= |calls| ensures NextAsUnbounded(s, calls[..n]) {
        PrefixOfPrefix(calls, n);
        NextIsAnswered(s, calls[..n]);
      }
    } else {
      var n :| 0 < n <= |calls| && LosesLive(s, calls[..n]);
      FirstLossShows(s, calls, n);
    }
  }

  lemma {:induction false} NextIsAnswered(s: Settings, calls: seq<Call>)
    requires Nondecreasing(calls) && NeverLosesLive(s, calls)
    ensures NextAsUnbounded(s, calls)
  {
    hide NeverLosesLive, After, Unbounded, Nondecreasing;
    forall c: Call | calls != [] ==> calls[|calls| - 1].now <= c.now
      ensures Refused(s.windowMs, After(s, calls), c) == Refused(s.windowMs, Unbounded(s.windowMs, calls), c)
    {
      UnboundedIsFollowed(s, calls, c.now);
    }
  }

  lemma {:induction false} SizeAfterUpdate(t: Table, key: string, now: int)
    ensures |t[key := now]| <= |t| + 1
    ensures key in t ==> |t[key := now]| == |t|
  {
    assert t[key := now].Keys == t.Keys + {key};
    if key in t {
      assert t[key := now].Keys == t.Keys;
    }
  }

  /** Memory stays bounded in every run, whatever the clock does. */
  lemma {:induction false} StaysBounded(s: Settings, calls: seq<Call>)
    ensures |After(s, calls)| <= Max(1, s.maxKeys)
  {
    if calls != [] {
      var seen, c := After(s, calls[..|calls| - 1]), calls[|calls| - 1];
      StaysBounded(s, calls[..|calls| - 1]);
      SizeAfterUpdate(seen, c.key, c.now);
      SizeAfterUpdate(Live(s.windowMs, seen, c.now), c.key, c.now);
      SizeAfterUpdate(map[], c.key, c.now);
    }
  }

  lemma {:induction false} RecordIsKept(s: Settings, calls: seq<Call>, i: nat, m: nat)
    requires Nondecreasing(calls) && i < m <= |calls|
    requires LastAllowed(s, calls[..i + 1])
    requires forall k :: i + 2 <= k <= m ==> !LastClears(s, calls[..k])
    ensures var full := Unswept(s, calls[..m]);
            calls[i].key in full && full[calls[i].key] >= calls[i].now
    decreases m
  {
    hide After, Live;
    assert calls[..m][..m - 1] == calls[..m - 1];
    if m == i + 1 {
      SweepIsInvisible(s, calls[..m]);
    } else {
      RecordIsKept(s, calls, i, m - 1);
    }
  }

  /** Two recorded events of one key with no clear between them are at least a window apart. */
  lemma {:induction false} RecordedEventsAreSpaced(s: Settings, calls: seq<Call>, i: nat, j: nat)
    requires Nondecreasing(calls) && i < j < |calls| && calls[i].key == calls[j].key
    requires LastAllowed(s, calls[..i + 1]) && LastAllowed(s, calls[..j + 1])
    requires forall k :: i + 2 <= k <= j ==> !LastClears(s, calls[..k])
    ensures calls[j].now - calls[i].now >= s.windowMs
  {
    hide After, Live, Unswept;
    RecordIsKept(s, calls, i, j);
    assert calls[..j + 1][..j] == calls[..j];
    SweepIsInvisible(s, calls[..j + 1]);
  }

  // ---------------------------------------------------------------- when an event is refused

  /** The `i`th call was recorded, and no later one of the run cleared the table. */
  ghost predicate KeptFrom(s: Settings, calls: seq<Call>, i: nat)
    requires i < |calls|
  {
    LastAllowed(s, calls[..i + 1]) && forall k :: i + 2 <= k <= |calls| ==> !LastClears(s, calls[..k])
  }

  /** What the table holds was recorded by some call, and the table was not cleared since. */
  lemma {:induction false} EntriesAreRecorded(s: Settings, calls: seq<Call>, key: string) returns (i: nat)
    requires key in After(s, calls)
    ensures i < |calls| && calls[i].key == key && calls[i].now == After(s, calls)[key] && KeptFrom(s, calls, i)
    decreases |calls|
  {
    var n := |calls| - 1;
    PrefixOfPrefix(calls, n);
    assert calls[..n + 1] == calls;
    if LastAllowed(s, calls) && calls[n].key == key {
      i := n;
    } else {
      i := EntriesAreRecorded(s, calls[..n], key);
      assert calls[..n][..i + 1] == calls[..i + 1];
      forall k | i + 2 <= k <= |calls| ensures !LastClears(s, calls[..k]) {
        if k <= n {
          assert calls[..n][..k] == calls[..k];
        }
      }
    }
  }

  /** Whatever the clock does, a refused event has a recorded one of its key less than the window before it. */
  lemma {:induction false} RefusalHasACause(s: Settings, calls: seq<Call>)
    requires calls != []
    ensures var n := |calls| - 1;
            !LastAllowed(s, calls) ==>
              exists i :: 0 <= i < n && calls[i].key == calls[n].key && calls[n].now - calls[i].now < s.windowMs
                          && LastAllowed(s, calls[..i + 1])
  {
    var n := |calls| - 1;
    if !LastAllowed(s, calls) {
      var i := EntriesAreRecorded(s, calls[..n], calls[n].key);
      assert calls[..n][..i + 1] == calls[..i + 1];
    }
  }

  /**
   * With a clock that does not step back, an event is refused if and only if an event of its key was recorded less
   * than the window before it and has not been cleared away since.
   */
  lemma {:induction false} RefusedExactlyWhen(s: Settings, calls: seq<Call>)
    requires calls != [] && Nondecreasing(calls)
    ensures var n := |calls| - 1;
            !LastAllowed(s, calls) <==>
            exists i :: 0 <= i < n && calls[i].key == calls[n].key && calls[n].now - calls[i].now < s.windowMs
                        && KeptFrom(s, calls[..n], i)
  {
    var n := |calls| - 1;
    PrefixOfPrefix(calls, n);
    if !LastAllowed(s, calls) {
      var i := EntriesAreRecorded(s, calls[..n], calls[n].key);
    } else if i :| 0 <= i < n && calls[i].key == calls[n].key && calls[n].now - calls[i].now < s.windowMs
                   && KeptFrom(s, calls[..n], i) {
      forall k | i + 2 <= k <= n ensures !LastClears(s, calls[..k]) {
        assert calls[..n][..k] == calls[..k];
      }
      assert calls[..n][..i + 1] == calls[..i + 1];
      RecordIsKept(s, calls, i, n);
      SweepIsInvisible(s, calls);
    }
  }
}
