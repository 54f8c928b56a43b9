/**
 * The fixed-window rate limiter (apps/api/src/lib/rateLimit.ts). Every 500th call sweeps expired
 * buckets; the proofs compare it with a limiter that never sweeps, and that one with the plain
 * history of each key.
 */
module RateLimit {
  import opened Wrappers
  import opened Text

  datatype Rule = Rule(name: string, limit: int, windowMs: int)

  datatype RateResult = RateResult(allowed: bool, remaining: int, retryAfterSec: int)

  datatype Bucket = Bucket(count: nat, resetAt: int)

  datatype Hit = Hit(key: string, rule: Rule, now: int)

  type Buckets = map<string, Bucket>

  const SWEEP_EVERY := 500

  function BucketId(name: string, key: string): string {
    name + ":" + key
  }

  function Id(h: Hit): string {
    BucketId(h.rule.name, h.key)
  }

  /** `Math.ceil(a / 1000)`. */
  function CeilSeconds(ms: int): int {
    -((-ms) / 1000)
  }

  function Answer(b: Bucket, limit: int, now: int): RateResult {
    var allowed := b.count <= limit;
    RateResult(allowed, Max(0, limit - b.count), if allowed then 0 else Max(1, CeilSeconds(b.resetAt - now)))
  }

  /** The bucket of a hit after it, given the one before. */
  function Counted(before: Option<Bucket>, windowMs: int, now: int): Bucket {
    if before.None? || before.value.resetAt <= now then Bucket(1, now + windowMs)
    else Bucket(before.value.count + 1, before.value.resetAt)
  }

  function Lookup(buckets: Buckets, id: string): Option<Bucket> {
    if id in buckets then Some(buckets[id]) else None
  }

  function Swept(buckets: Buckets, now: int): Buckets {
    map id | id in buckets && buckets[id].resetAt > now :: buckets[id]
  }

  class RateLimiter {
    var buckets: Buckets
    var sinceSweep: nat

    constructor ()
      ensures buckets == map[] && sinceSweep == 0
    {
      buckets := map[];
      sinceSweep := 0;
    }

    method HitKey(h: Hit) returns (r: RateResult)
      modifies this
      ensures var s := Step(State(old(buckets), old(sinceSweep)), h);
              buckets == s.state.buckets && sinceSweep == s.state.sinceSweep && r == s.result
    {
      sinceSweep := sinceSweep + 1;
      if sinceSweep >= SWEEP_EVERY { Sweep(h.now); }
      var id := Id(h);
      if id !in buckets || buckets[id].resetAt <= h.now {
        buckets := buckets[id := Bucket(0, h.now + h.rule.windowMs)];
      }
      var bucket := buckets[id].(count := buckets[id].count + 1);
      buckets := buckets[id := bucket];
      var allowed := bucket.count <= h.rule.limit;
      r := RateResult(
        allowed,
        Max(0, h.rule.limit - bucket.count),
        if allowed then 0 else Max(1, CeilSeconds(bucket.resetAt - h.now)));
    }

    method Sweep(now: int)
      modifies this
      ensures sinceSweep == 0 && buckets == Swept(old(buckets), now)
    {
      sinceSweep := 0;
      var ids := buckets.Keys;
      while ids != {}
        invariant sinceSweep == 0
        invariant ids <= buckets.Keys <= old(buckets).Keys
        invariant forall id :: id in buckets ==> buckets[id] == old(buckets)[id]
        invariant forall id :: id in old(buckets) && id !in ids ==> (id in buckets <==> old(buckets)[id].resetAt > now)
        decreases |ids|
      {
        var id :| id in ids;
        ids := ids - {id};
        if buckets[id].resetAt <= now { buckets := buckets - {id}; }
      }
    }
  }

  // ---------------------------------------------------------------- runs

  datatype State = State(buckets: Buckets, sinceSweep: nat)

  datatype Stepped = Stepped(state: State, result: RateResult)

  /** One call of the limiter. */
  function Step(s: State, h: Hit): Stepped {
    var due := s.sinceSweep + 1 >= SWEEP_EVERY;
    var buckets := if due then Swept(s.buckets, h.now) else s.buckets;
    var bucket := Counted(Lookup(buckets, Id(h)), h.rule.windowMs, h.now);
    Stepped(State(buckets[Id(h) := bucket], if due then 0 else s.sinceSweep + 1), Answer(bucket, h.rule.limit, h.now))
  }

  /** The state after a run of calls. */
  function After(hits: seq<Hit>): State {
    if hits == [] then State(map[], 0) else Step(After(hits[..|hits| - 1]), hits[|hits| - 1]).state
  }

  /** What the last call of a run answers. */
  function LastAnswer(hits: seq<Hit>): RateResult
    requires hits != []
  {
    Step(After(hits[..|hits| - 1]), hits[|hits| - 1]).result
  }

  /** The buckets of a limiter that never deletes one. */
  function UnsweptAfter(hits: seq<Hit>): Buckets {
    if hits == [] then map[]
    else
      var before, h := UnsweptAfter(hits[..|hits| - 1]), hits[|hits| - 1];
      before[Id(h) := Counted(Lookup(before, Id(h)), h.rule.windowMs, h.now)]
  }

  function LastAnswerUnswept(hits: seq<Hit>): RateResult
    requires hits != []
  {
    var h := hits[|hits| - 1];
    Answer(UnsweptAfter(hits)[Id(h)], h.rule.limit, h.now)
  }

  ghost predicate Nondecreasing(hits: seq<Hit>) {
    forall i, j :: 0 <= i < j < |hits| ==> hits[i].now <= hits[j].now
  }

  /** The swept table lacks only buckets that are over at `now`. */
  ghost predicate LacksOnlyExpired(swept: Buckets, full: Buckets, now: int) {
    && (forall id :: id in swept ==> id in full && swept[id] == full[id])
    && (forall id :: id in full && id !in swept ==> full[id].resetAt <= now)
  }

  lemma {:induction false} SweptTableFollows(hits: seq<Hit>, now: int)
    requires Nondecreasing(hits) && (hits != [] ==> hits[|hits| - 1].now <= now)
    ensures LacksOnlyExpired(After(hits).buckets, UnsweptAfter(hits), now)
    decreases |hits|
  {
    if hits != [] {
      SweptTableFollows(hits[..|hits| - 1], hits[|hits| - 1].now);
    }
  }

  /**
   * Sweeping is invisible: with a clock that never steps back, every call of every run gets the answer
   * of a limiter that never deletes a bucket.
   */
  lemma {:induction false} SweepIsInvisible(hits: seq<Hit>)
    requires hits != [] && Nondecreasing(hits)
    ensures LastAnswer(hits) == LastAnswerUnswept(hits)
  {
    SweptTableFollows(hits[..|hits| - 1], hits[|hits| - 1].now);
  }

  /** What a table answers to a hit. */
  function AnswerFrom(buckets: Buckets, h: Hit): RateResult {
    Answer(Counted(Lookup(buckets, Id(h)), h.rule.windowMs, h.now), h.rule.limit, h.now)
  }

  ghost predicate InUse(buckets: Buckets) {
    forall id :: id in buckets ==> buckets[id].count > 0
  }

  lemma {:induction false} BucketsAreInUse(hits: seq<Hit>)
    ensures InUse(After(hits).buckets) && InUse(UnsweptAfter(hits))
    decreases |hits|
  {
    if hits != [] {
      BucketsAreInUse(hits[..|hits| - 1]);
    }
  }

  /**
   * A sweep at `now` changes the answer to a hit exactly if it deletes the bucket of the hit although the hit
   * comes before the reset. A rule that allows nothing then shows it only in the wait.
   */
  lemma {:induction false} SweepShowsExactlyWhen(buckets: Buckets, now: int, h: Hit)
    requires InUse(buckets)
    ensures AnswerFrom(Swept(buckets, now), h) != AnswerFrom(buckets, h) <==>
            && Id(h) in buckets && h.now < buckets[Id(h)].resetAt <= now
            && (h.rule.limit >= 1
                || Max(1, CeilSeconds(buckets[Id(h)].resetAt - h.now)) != Max(1, CeilSeconds(h.rule.windowMs)))
  {
    hide Id, CeilSeconds;
  }

  /** Whether the last hit of a run comes before the reset of a bucket that a sweep has deleted. */
  predicate FindsSwept(hits: seq<Hit>)
    requires hits != []
  {
    var before, h := hits[..|hits| - 1], hits[|hits| - 1];
    var full := UnsweptAfter(before);
    Id(h) in full && h.now < full[Id(h)].resetAt && Id(h) !in After(before).buckets
  }

  ghost predicate NeverFindsSwept(hits: seq<Hit>) {
    forall n :: 0 < n <= |hits| ==> !FindsSwept(hits[..n])
  }

  ghost predicate AnswersAsUnswept(hits: seq<Hit>) {
    forall n :: 0 < n <= |hits| ==> LastAnswer(hits[..n]) == LastAnswerUnswept(hits[..n])
  }

  ghost predicate PartOf(swept: Buckets, full: Buckets) {
    forall id :: id in swept ==> id in full && swept[id] == full[id]
  }

  /** One hit on a part of the full table. */
  lemma {:induction false} HitOnPart(hits: seq<Hit>)
    requires hits != []
    requires var before := hits[..|hits| - 1]; PartOf(After(before).buckets, UnsweptAfter(before))
    ensures !FindsSwept(hits) ==>
              PartOf(After(hits).buckets, UnsweptAfter(hits)) && LastAnswer(hits) == LastAnswerUnswept(hits)
    ensures FindsSwept(hits) && hits[|hits| - 1].rule.limit >= 1 ==> LastAnswer(hits) != LastAnswerUnswept(hits)
  {
    hide Id, CeilSeconds;
    BucketsAreInUse(hits[..|hits| - 1]);
  }

  lemma {:induction false} PrefixOfPrefix(hits: seq<Hit>, m: nat)
    requires m <= |hits|
    ensures forall n :: 0 <= n <= m ==> hits[..m][..n] == hits[..n]
  {
  }

  lemma {:induction false} UnsweptIsFollowed(hits: seq<Hit>)
    requires NeverFindsSwept(hits)
    ensures PartOf(After(hits).buckets, UnsweptAfter(hits)) && AnswersAsUnswept(hits)
    decreases |hits|
  {
    hide FindsSwept, LastAnswer, LastAnswerUnswept;
    if hits != [] {
      var m := |hits| - 1;
      PrefixOfPrefix(hits, m);
      UnsweptIsFollowed(hits[..m]);
      assert hits[..m + 1] == hits;
      HitOnPart(hits);
      forall n | 0 < n <= |hits| ensures LastAnswer(hits[..n]) == LastAnswerUnswept(hits[..n]) {
        if n <= m {
          assert hits[..m][..n] == hits[..n];
        }
      }
    }
  }

  /** At the first hit that finds a swept bucket the answer is wrong. */
  lemma {:induction false} FirstFindIsWrong(hits: seq<Hit>, n: nat)
    requires 0 < n <= |hits| && FindsSwept(hits[..n])
    requires forall i :: 0 <= i < |hits| ==> hits[i].rule.limit >= 1
    ensures !AnswersAsUnswept(hits)
    decreases n
  {
    hide FindsSwept, LastAnswer, LastAnswerUnswept;
    if m :| 0 < m < n && FindsSwept(hits[..m]) {
      FirstFindIsWrong(hits, m);
    } else {
      PrefixOfPrefix(hits, n);
      PrefixOfPrefix(hits, n - 1);
      assert NeverFindsSwept(hits[..n - 1]);
      UnsweptIsFollowed(hits[..n - 1]);
      HitOnPart(hits[..n]);
    }
  }

  /**
   * Whatever the clock does: with limits that allow something, a run is answered throughout as without sweeps
   * if and only if no hit comes before the reset of a bucket that a sweep has deleted.
   */
  lemma {:induction false} SweepIsInvisibleExactlyWhen(hits: seq<Hit>)
    ensures (forall i :: 0 <= i < |hits| ==> hits[i].rule.limit >= 1) ==>
              (AnswersAsUnswept(hits) <==> NeverFindsSwept(hits))
  {
    hide FindsSwept, AnswersAsUnswept;
    if forall i :: 0 <= i < |hits| ==> hits[i].rule.limit >= 1 {
      if NeverFindsSwept(hits) {
        UnsweptIsFollowed(hits);
      } else {
        var n :| 0 < n <= |hits| && FindsSwept(hits[..n]);
        FirstFindIsWrong(hits, n);
      }
    }
  }

  /**
   * Every 500th hit sweeps: the table then holds no bucket that is over but the one that this hit has just opened.
   */
  lemma {:induction false} SweptEvery500(hits: seq<Hit>)
    ensures After(hits).sinceSweep == |hits| % 500
    ensures |hits| % 500 == 0 && hits != [] ==>
              var h := hits[|hits| - 1];
              forall id :: id in After(hits).buckets && id != Id(h) ==> After(hits).buckets[id].resetAt > h.now
    decreases |hits|
  {
    hide Id, Counted, Answer;
    if hits != [] {
      SweptEvery500(hits[..|hits| - 1]);
    }
  }

  // ---------------------------------------------------------------- one key's history

  /** The bucket a key has after hits at these times under one window, oldest first; it depends on nothing else. */
  function BucketAfter(windowMs: int, times: seq<int>): Option<Bucket> {
    if times == [] then None
    else Some(Counted(BucketAfter(windowMs, times[..|times| - 1]), windowMs, times[|times| - 1]))
  }

  /** The times of the hits on `id`. */
  function TimesOf(id: string, hits: seq<Hit>): seq<int> {
    if hits == [] then []
    else
      var before, h := TimesOf(id, hits[..|hits| - 1]), hits[|hits| - 1];
      if Id(h) == id then before + [h.now] else before
  }

  ghost predicate OneRuleFor(id: string, windowMs: int, hits: seq<Hit>) {
    forall i :: 0 <= i < |hits| && Id(hits[i]) == id ==> hits[i].rule.windowMs == windowMs
  }

  lemma {:induction false} BucketsAreIndependent(id: string, windowMs: int, hits: seq<Hit>)
    requires OneRuleFor(id, windowMs, hits)
    ensures Lookup(UnsweptAfter(hits), id) == BucketAfter(windowMs, TimesOf(id, hits))
    decreases |hits|
  {
    if hits != [] {
      var before, h := hits[..|hits| - 1], hits[|hits| - 1];
      BucketsAreIndependent(id, windowMs, before);
      var times := TimesOf(id, before);
      assert (times + [h.now])[..|times|] == times;
    }
  }

  /** Each answer of the limiter is determined by the times of the hits on the same rule and key. */
  lemma {:induction false} AnswersFollowOwnHistory(hits: seq<Hit>)
    requires hits != [] && Nondecreasing(hits)
    requires var h := hits[|hits| - 1]; OneRuleFor(Id(h), h.rule.windowMs, hits)
    ensures var h := hits[|hits| - 1];
            var bucket := BucketAfter(h.rule.windowMs, TimesOf(Id(h), hits));
            bucket.Some? && LastAnswer(hits) == Answer(bucket.value, h.rule.limit, h.now)
  {
    SweepIsInvisible(hits);
    var h := hits[|hits| - 1];
    BucketsAreIndependent(Id(h), h.rule.windowMs, hits);
  }

  // ---------------------------------------------------------------- how many are allowed

  /** Whether the last of these hits is allowed. */
  predicate LastAllowed(limit: int, windowMs: int, times: seq<int>) {
    times != [] && BucketAfter(windowMs, times).value.count <= limit
  }

  /** The allowed hits with a time in the half-open interval from `from` to `to`. */
  function AllowedIn(limit: int, windowMs: int, times: seq<int>, from: int, to: int): nat {
    if times == [] then 0
    else
      var n := |times| - 1;
      AllowedIn(limit, windowMs, times[..n], from, to)
      + if from <= times[n] < to && LastAllowed(limit, windowMs, times) then 1 else 0
  }

  ghost predicate Sorted(times: seq<int>) {
    forall i, j :: 0 <= i < j < |times| ==> times[i] <= times[j]
  }

  /**
   * From the start of the current window on there are at most `limit` allowed hits. Less than one
   * window length before it, the hit that opened the previous window is already out of sight, so there
   * are at most `limit - 1` more.
   */
  lemma {:induction false} WindowsHold(limit: int, windowMs: int, times: seq<int>, from: int, to: int)
    requires times != [] && Sorted(times) && windowMs > 0
    ensures var b := BucketAfter(windowMs, times).value;
            var current, allowed := Min(b.count, Max(0, limit)), AllowedIn(limit, windowMs, times, from, to);
            && b.count > 0 && b.resetAt - windowMs <= times[|times| - 1] < b.resetAt
            && (b.resetAt - windowMs <= from ==> allowed <= current)
            && (b.resetAt - windowMs < from ==> allowed <= Max(0, current - 1))
            && (b.resetAt - 2 * windowMs < from ==> allowed <= Max(0, limit - 1) + current)
            && (times[|times| - 1] < from ==> allowed == 0)
    decreases |times|
  {
    if |times| > 1 {
      WindowsHold(limit, windowMs, times[..|times| - 1], from, to);
    }
  }

  /** Fewer than twice the limit are allowed in any interval as long as the window, wherever it starts. */
  lemma {:induction false} SlidingBound(limit: int, windowMs: int, times: seq<int>, from: int)
    requires Sorted(times)
    ensures AllowedIn(limit, windowMs, times, from, from + windowMs) <= Max(0, 2 * limit - 1)
    decreases |times|
  {
    if times != [] {
      if from <= times[|times| - 1] < from + windowMs {
        WindowsHold(limit, windowMs, times, from, from + windowMs);
      } else {
        SlidingBound(limit, windowMs, times[..|times| - 1], from);
      }
    }
  }

  /** One fixed window, from the hit that opened it to its reset, holds at most `limit` allowed hits. */
  lemma {:induction false} WindowBound(limit: int, windowMs: int, times: seq<int>)
    requires times != [] && Sorted(times) && windowMs > 0
    ensures var b := BucketAfter(windowMs, times).value;
            AllowedIn(limit, windowMs, times, b.resetAt - windowMs, b.resetAt) <= Max(0, limit)
  {
    var b := BucketAfter(windowMs, times).value;
    WindowsHold(limit, windowMs, times, b.resetAt - windowMs, b.resetAt);
  }

  /** The calls on `id` that the limiter let through in an interval. */
  function LetThrough(id: string, hits: seq<Hit>, from: int, to: int): nat {
    if hits == [] then 0
    else
      var h := hits[|hits| - 1];
      LetThrough(id, hits[..|hits| - 1], from, to)
      + if Id(h) == id && from <= h.now < to && LastAnswer(hits).allowed then 1 else 0
  }

  lemma {:induction false} TimesAreSorted(id: string, hits: seq<Hit>)
    requires Nondecreasing(hits)
    ensures Sorted(TimesOf(id, hits))
    ensures hits != [] ==> forall i :: 0 <= i < |TimesOf(id, hits)| ==> TimesOf(id, hits)[i] <= hits[|hits| - 1].now
    decreases |hits|
  {
    if hits != [] {
      TimesAreSorted(id, hits[..|hits| - 1]);
    }
  }

  lemma {:induction false} LetThroughIsAllowed(id: string, rule: Rule, hits: seq<Hit>, from: int, to: int)
    requires Nondecreasing(hits)
    requires forall i :: 0 <= i < |hits| && Id(hits[i]) == id ==> hits[i].rule == rule
    ensures LetThrough(id, hits, from, to) == AllowedIn(rule.limit, rule.windowMs, TimesOf(id, hits), from, to)
    decreases |hits|
  {
    if hits != [] {
      var before, h := hits[..|hits| - 1], hits[|hits| - 1];
      LetThroughIsAllowed(id, rule, before, from, to);
      if Id(h) == id {
        AnswersFollowOwnHistory(hits);
        var times := TimesOf(id, before);
        assert (times + [h.now])[..|times|] == times;
      }
    }
  }

  /** The sliding bound, for the limiter itself and every run of it. */
  lemma {:induction false} LimiterSlidingBound(id: string, rule: Rule, hits: seq<Hit>, from: int)
    requires Nondecreasing(hits)
    requires forall i :: 0 <= i < |hits| && Id(hits[i]) == id ==> hits[i].rule == rule
    ensures LetThrough(id, hits, from, from + rule.windowMs) <= Max(0, 2 * rule.limit - 1)
  {
    TimesAreSorted(id, hits);
    LetThroughIsAllowed(id, rule, hits, from, from + rule.windowMs);
    SlidingBound(rule.limit, rule.windowMs, TimesOf(id, hits), from);
  }

  function Repeat(t: int, k: nat): seq<int> {
    if k == 0 then [] else Repeat(t, k - 1) + [t]
  }

  lemma {:induction false} BurstIsAllowed(
      limit: int, windowMs: int, times: seq<int>, t: int, k: nat, from: int, to: int)
    requires var b := BucketAfter(windowMs, times);
             b.Some? && t < b.value.resetAt && b.value.count + k <= limit && from <= t < to
    ensures var b := BucketAfter(windowMs, times).value;
            && BucketAfter(windowMs, times + Repeat(t, k)) == Some(Bucket(b.count + k, b.resetAt))
            && AllowedIn(limit, windowMs, times + Repeat(t, k), from, to)
               == AllowedIn(limit, windowMs, times, from, to) + k
    decreases k
  {
    hide BucketAfter, AllowedIn;
    if k == 0 {
      assert times + Repeat(t, 0) == times;
    } else {
      BurstIsAllowed(limit, windowMs, times, t, k - 1, from, to);
      assert times + Repeat(t, k) == times + Repeat(t, k - 1) + [t];
      BurstGrows(limit, windowMs, times + Repeat(t, k - 1), t, from, to);
    }
  }

  lemma {:induction false} BurstGrows(limit: int, windowMs: int, times: seq<int>, t: int, from: int, to: int)
    requires var b := BucketAfter(windowMs, times);
             b.Some? && t < b.value.resetAt && b.value.count + 1 <= limit && from <= t < to
    ensures var b := BucketAfter(windowMs, times).value;
            && BucketAfter(windowMs, times + [t]) == Some(Bucket(b.count + 1, b.resetAt))
            && AllowedIn(limit, windowMs, times + [t], from, to) == AllowedIn(limit, windowMs, times, from, to) + 1
  {
    assert (times + [t])[..|times|] == times;
  }

  lemma {:induction false} WindowOpens(limit: int, windowMs: int, times: seq<int>, t: int, from: int, to: int)
    requires var b := BucketAfter(windowMs, times);
             (b.None? || b.value.resetAt <= t) && 1 <= limit && from <= t < to
    ensures BucketAfter(windowMs, times + [t]) == Some(Bucket(1, t + windowMs))
    ensures AllowedIn(limit, windowMs, times + [t], from, to) == AllowedIn(limit, windowMs, times, from, to) + 1
  {
    assert (times + [t])[..|times|] == times;
  }

  lemma {:induction false} RepeatIsConstant(t: int, k: nat)
    ensures |Repeat(t, k)| == k && forall i :: 0 <= i < k ==> Repeat(t, k)[i] == t
  {
    if k > 0 {
      RepeatIsConstant(t, k - 1);
    }
  }

  lemma {:induction false} FirstHit(limit: int, windowMs: int, from: int, to: int)
    requires from > 0
    ensures BucketAfter(windowMs, [0]) == Some(Bucket(1, windowMs)) && AllowedIn(limit, windowMs, [0], from, to) == 0
  {
    assert [0][..0] == [];
  }

  /** One early hit, the rest of the limit at the very end of its window, and a whole new window right after. */
  function Burst(limit: nat, windowMs: nat): seq<int>
    requires limit >= 1
  {
    [0] + Repeat(windowMs - 1, limit - 1) + [windowMs] + Repeat(windowMs, limit - 1)
  }

  lemma {:induction false} BurstIsSorted(limit: nat, windowMs: nat)
    requires limit >= 1 && windowMs >= 2
    ensures Sorted(Burst(limit, windowMs))
  {
    RepeatIsConstant(windowMs - 1, limit - 1);
    RepeatIsConstant(windowMs, limit - 1);
    hide Repeat;
    var s := Burst(limit, windowMs);
    assert forall i :: 0 <= i < |s| ==> s[i] == if i == 0 then 0 else if i < limit then windowMs - 1 else windowMs;
  }

  /** The bound is reached, for every limit and every window of at least two milliseconds. */
  lemma {:induction false} SlidingBoundIsReached(limit: nat, windowMs: nat)
    requires limit >= 1 && windowMs >= 2
    ensures var from := windowMs - 1;
            && Sorted(Burst(limit, windowMs))
            && AllowedIn(limit, windowMs, Burst(limit, windowMs), from, from + windowMs) == 2 * limit - 1
  {
    BurstIsSorted(limit, windowMs);
    hide BucketAfter, AllowedIn, Repeat, Sorted;
    var from := windowMs - 1;
    var to := from + windowMs;
    var first := [0] + Repeat(windowMs - 1, limit - 1);
    FirstHit(limit, windowMs, from, to);
    BurstIsAllowed(limit, windowMs, [0], windowMs - 1, limit - 1, from, to);
    WindowOpens(limit, windowMs, first, windowMs, from, to);
    BurstIsAllowed(limit, windowMs, first + [windowMs], windowMs, limit - 1, from, to);
  }

  /** How many of these hits come at `from` or later. */
  function HitsFrom(times: seq<int>, from: int): nat {
    if times == [] then 0
    else HitsFrom(times[..|times| - 1], from) + if times[|times| - 1] >= from then 1 else 0
  }

  lemma {:induction false} NoHitsFrom(times: seq<int>, from: int)
    requires forall i :: 0 <= i < |times| ==> times[i] < from
    ensures HitsFrom(times, from) == 0
    decreases |times|
  {
    if times != [] {
      NoHitsFrom(times[..|times| - 1], from);
    }
  }

  /**
   * What an answer says: the current window was opened by a hit and is not over, the hit is allowed exactly if no more
   * than `limit` hits have come since, `remaining` is what is left of the limit, and only a refused caller waits.
   */
  lemma {:induction false} AnswersExactly(limit: int, windowMs: int, times: seq<int>)
    requires times != [] && Sorted(times) && windowMs > 0
    ensures var b, last := BucketAfter(windowMs, times).value, times[|times| - 1];
            var start, r := b.resetAt - windowMs, Answer(b, limit, last);
            var hits := HitsFrom(times, start);
            && start in times && start <= last < start + windowMs
            && b.count == hits
            && (r.allowed <==> hits <= limit)
            && r.remaining == (if hits <= limit then limit - hits else 0)
            && (r.allowed ==> r.retryAfterSec == 0)
    decreases |times|
  {
    var n := |times| - 1;
    var front, last := times[..n], times[n];
    if front != [] {
      AnswersExactly(limit, windowMs, front);
      var before := BucketAfter(windowMs, front).value;
      if before.resetAt <= last {
        forall i | 0 <= i < n ensures front[i] < last {
          assert front[i] <= front[n - 1];
        }
        NoHitsFrom(front, last);
      }
    }
  }

  /** A refused caller is told to wait at least until the reset, and less than a second longer than needed. */
  lemma {:induction false} RetryReachesReset(limit: int, windowMs: int, times: seq<int>)
    requires times != [] && Sorted(times) && windowMs > 0
    ensures var b, now := BucketAfter(windowMs, times).value, times[|times| - 1];
            var r := Answer(b, limit, now);
            !r.allowed ==> b.resetAt <= now + 1000 * r.retryAfterSec < b.resetAt + 1000
  {
    WindowsHold(limit, windowMs, times, 0, 0);
  }

  /** After a window that `times` left open, later hits are still in it, or only they fill the newer one. */
  lemma {:induction false} LaterHitsFill(windowMs: int, times: seq<int>, others: seq<int>)
    requires times != [] && windowMs > 0 && Sorted(times + others)
    ensures var b, later := BucketAfter(windowMs, times).value, BucketAfter(windowMs, times + others);
            later.Some? && (later.value.resetAt == b.resetAt
                            || (later.value.count <= HitsFrom(others, b.resetAt)
                                && b.resetAt < later.value.resetAt
                                && b.resetAt <= (times + others)[|times + others| - 1]))
    decreases |others|
  {
    if others == [] {
      assert times + others == times;
    } else {
      var n := |others| - 1;
      var front, all := times + others[..n], times + others;
      assert all[..|all| - 1] == front && all[|all| - 1] == others[n];
      assert Sorted(front) by {
        assert forall i :: 0 <= i < |front| ==> front[i] == all[i];
      }
      LaterHitsFill(windowMs, times, others[..n]);
    }
  }

  /**
   * Whoever waits as told is let in, unless the hits of others on the same key since the reset have used up
   * the limit.
   */
  lemma {:induction false} WaitingIsRewarded(limit: int, windowMs: int, times: seq<int>, others: seq<int>, later: int)
    requires times != [] && windowMs > 0 && Sorted(times + others + [later])
    requires var r := Answer(BucketAfter(windowMs, times).value, limit, times[|times| - 1]);
             !r.allowed && later >= times[|times| - 1] + 1000 * r.retryAfterSec
    ensures LastAllowed(limit, windowMs, times + others + [later])
            || HitsFrom(others, BucketAfter(windowMs, times).value.resetAt) >= limit
  {
    var all := times + others + [later];
    assert Sorted(times) && Sorted(times + others) by {
      assert forall i :: 0 <= i < |times| ==> times[i] == all[i];
      assert forall i :: 0 <= i < |times + others| ==> (times + others)[i] == all[i];
    }
    hide Sorted, Answer;
    RetryReachesReset(limit, windowMs, times);
    LaterHitsFill(windowMs, times, others);
    assert all[..|times + others|] == times + others;
  }

  /**
   * Two rules never share a bucket, and two keys of one rule never do, exactly if they are one rule or neither
   * name with its colon begins the other.
   */
  lemma {:induction false} IdsAreDistinct(a: string, b: string)
    ensures (forall k, l :: BucketId(a, k) == BucketId(b, l) ==> a == b && k == l) <==>
            a == b || (!(a + ":" <= b + ":") && !(b + ":" <= a + ":"))
  {
    if a != b && a + ":" <= b + ":" {
      NamesOverlap(a, b);
    } else if a != b && b + ":" <= a + ":" {
      NamesOverlap(b, a);
    } else {
      forall k, l | BucketId(a, k) == BucketId(b, l) ensures a == b && k == l {
        NamesApart(a, b, k, l);
      }
    }
  }

  lemma {:induction false} NamesOverlap(a: string, b: string)
    requires a != b && a + ":" <= b + ":"
    ensures exists k :: BucketId(a, k) == BucketId(b, "")
  {
    var k := (b + ":")[|a| + 1..];
    assert BucketId(a, k) == b + ":" == BucketId(b, "");
  }

  lemma {:induction false} ShorterBegins(a: string, b: string, k: string, l: string)
    requires BucketId(a, k) == BucketId(b, l) && |a| <= |b|
    ensures a + ":" <= b + ":"
    ensures |a| == |b| ==> a == b && k == l
  {
    var id := BucketId(a, k);
    assert id[..|a| + 1] == a + ":" && id[|a| + 1..] == k;
    assert id[..|b| + 1] == b + ":" && id[|b| + 1..] == l;
    assert (b + ":")[..|a| + 1] == id[..|a| + 1];
    assert (a + ":")[..|a|] == a && (b + ":")[..|b|] == b;
  }

  lemma {:induction false} NamesApart(a: string, b: string, k: string, l: string)
    requires BucketId(a, k) == BucketId(b, l)
    requires a == b || (!(a + ":" <= b + ":") && !(b + ":" <= a + ":"))
    ensures a == b && k == l
  {
    if |a| <= |b| {
      ShorterBegins(a, b, k, l);
    } else {
      ShorterBegins(b, a, l, k);
    }
  }

  /** In particular names without a colon, as all rules of the API have. */
  lemma {:induction false} ColonFreeNamesAreApart(a: string, b: string)
    requires ':' !in a && ':' !in b && a != b
    ensures !(a + ":" <= b + ":") && !(b + ":" <= a + ":")
  {
    assert a + ":" <= b + ":" ==> |a| == |b| by {
      assert (a + ":")[|a|] == ':' && (|a| < |b| ==> (b + ":")[|a|] == b[|a|]);
    }
    assert b + ":" <= a + ":" ==> |a| == |b| by {
      assert (b + ":")[|b|] == ':' && (|b| < |a| ==> (a + ":")[|b|] == a[|b|]);
    }
    assert (a + ":")[..|a|] == a && (b + ":")[..|b|] == b;
  }
}
