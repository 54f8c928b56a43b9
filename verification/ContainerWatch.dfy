/**
 * The container status tracker (packages/shared/src/containerWatch.ts).
 *
 * The class keeps one small automaton per container. The specification beside it knows nothing of
 * candidates and counters: it looks at the whole history of a container since it was last learned
 * and says which of its sightings are reports.
 */
module ContainerWatch {
  import opened Wrappers

  datatype WatchedContainer = WatchedContainer(
    name: string, status: string, exitCode: int, oomKilled: bool,
    restartCount: int, restartPolicy: string, health: string)

  datatype Change = Change(name: string, from: string, to: string)

  datatype Settings = Settings(confirmPolls: int, minIntervalMs: int)

  datatype Tracked = Tracked(
    reported: string, candidate: Option<string>, candidatePolls: int, lastReportedAt: Option<int>)

  predicate IsManagedName(name: string) {
    "yeah-app-" <= name || "yeah-db-" <= name || "yeah-svc-" <= name
  }

  function EffectiveState(c: WatchedContainer): string {
    if c.status == "running" && c.health == "unhealthy" then "unhealthy" else c.status
  }

  predicate Counted(c: WatchedContainer, ignore: set<string>) {
    IsManagedName(c.name) && c.name !in ignore
  }

  // ---------------------------------------------------------------- one container's history

  datatype Sighting = Sighting(at: int, state: string)

  /** What one container has shown since it was last learned, latest sighting outermost. */
  datatype History = Learned(now: Sighting) | Then(before: History, now: Sighting)

  function Length(h: History): (n: nat)
    ensures n > 0
  {
    if h.Learned? then 1 else Length(h.before) + 1
  }

  /** The sighting `k` polls before the latest one. */
  function Back(h: History, k: nat): Sighting
    requires k < Length(h)
  {
    if k == 0 then h.now else Back(h.before, k - 1)
  }

  function FirstState(h: History): string {
    if h.Learned? then h.now.state else FirstState(h.before)
  }

  /** How many of the latest sightings show the state of the last one. */
  function RunLength(h: History): (r: nat)
    ensures 1 <= r <= Length(h)
  {
    if h.Learned? || h.before.now.state != h.now.state then 1 else 1 + RunLength(h.before)
  }

  /** Whether the latest sighting of `h` is reported. */
  predicate Reports(s: Settings, h: History)
    decreases h, 0
  {
    && h.Then?
    && h.now.state != Reported(s, h.before)
    && RunLength(h) >= Max(1, s.confirmPolls)
    && PauseOver(s, LastReport(s, h.before), h.now.at)
  }

  predicate PauseOver(s: Settings, last: Option<Sighting>, at: int) {
    last.Some? ==> at - last.value.at >= s.minIntervalMs
  }

  /** The most recent reported sighting. */
  function LastReport(s: Settings, h: History): Option<Sighting>
    decreases h, 1
  {
    if h.Learned? then None
    else if Reports(s, h) then Some(h.now)
    else LastReport(s, h.before)
  }

  /** The state the world was last told about: the learned one until there is a report. */
  function Reported(s: Settings, h: History): string
    decreases h, 2
  {
    var last := LastReport(s, h);
    if last.Some? then last.value.state else FirstState(h)
  }

  lemma {:induction false} ReportedAfter(s: Settings, h: History)
    requires h.Then?
    ensures LastReport(s, h) == if Reports(s, h) then Some(h.now) else LastReport(s, h.before)
    ensures Reported(s, h) == if Reports(s, h) then h.now.state else Reported(s, h.before)
  {
    assert FirstState(h) == FirstState(h.before);
  }

  /** The run is as long as possible: it shows one state, and the sighting before it shows another. */
  lemma {:induction false} RunIsMaximal(h: History)
    ensures forall k :: 0 <= k < RunLength(h) ==> Back(h, k).state == h.now.state
    ensures RunLength(h) < Length(h) ==> Back(h, RunLength(h)).state != h.now.state
  {
    if h.Then? && h.before.now.state == h.now.state {
      RunIsMaximal(h.before);
    }
  }

  // ---------------------------------------------------------------- the automaton equals the history

  /** The tracker's entry for a container, read off its history. */
  function Summary(s: Settings, h: History): Tracked {
    var reported, last := Reported(s, h), LastReport(s, h);
    var since := if last.None? then None else Some(last.value.at);
    if h.now.state == reported then Tracked(reported, None, 0, since)
    else Tracked(reported, Some(h.now.state), RunLength(h), since)
  }

  /** What one more sighting does to an entry, and whether it is reported. */
  lemma {:induction false} SummaryExtends(s: Settings, h: History, now: Sighting)
    ensures var before := Summary(s, h);
            var polls := if before.candidate == Some(now.state) then before.candidatePolls + 1 else 1;
            var due := polls >= s.confirmPolls
                       && (before.lastReportedAt.Some? ==> now.at - before.lastReportedAt.value >= s.minIntervalMs);
            && Reports(s, Then(h, now)) == (now.state != before.reported && due)
            && Summary(s, Then(h, now)) ==
               if now.state == before.reported then before.(candidate := None, candidatePolls := 0)
               else if due then Tracked(now.state, None, 0, Some(now.at))
               else before.(candidate := Some(now.state), candidatePolls := polls)
  {
  }

  // ---------------------------------------------------------------- all containers, one poll

  type Lives = map<string, History>

  function LifeIn(lives: Lives, name: string): Option<History> {
    if name in lives then Some(lives[name]) else None
  }

  function Extend(life: Option<History>, now: Sighting): History {
    if life.None? then Learned(now) else Then(life.value, now)
  }

  function Seen(rows: seq<WatchedContainer>, ignore: set<string>): set<string> {
    set c | c in rows && Counted(c, ignore) :: c.name
  }

  lemma {:induction false} SeenExtends(rows: seq<WatchedContainer>, c: WatchedContainer, ignore: set<string>)
    ensures Seen(rows + [c], ignore) == Seen(rows, ignore) + if Counted(c, ignore) then {c.name} else {}
  {
    assert forall d :: d in rows + [c] <==> d in rows || d == c;
  }

  function SightingIn(c: WatchedContainer, at: int): Sighting {
    Sighting(at, EffectiveState(c))
  }

  function SeeRow(lives: Lives, c: WatchedContainer, at: int): Lives {
    lives[c.name := Extend(LifeIn(lives, c.name), SightingIn(c, at))]
  }

  /** The histories after the rows of a poll, before the vanished containers are forgotten. */
  function SeeRows(lives: Lives, rows: seq<WatchedContainer>, ignore: set<string>, at: int): Lives {
    if rows == [] then lives
    else
      var n := |rows| - 1;
      var rest := SeeRows(lives, rows[..n], ignore, at);
      if Counted(rows[n], ignore) then SeeRow(rest, rows[n], at) else rest
  }

  function SeePoll(lives: Lives, rows: seq<WatchedContainer>, ignore: set<string>, at: int): Lives {
    var all, seen := SeeRows(lives, rows, ignore, at), Seen(rows, ignore);
    map name | name in all && name in seen :: all[name]
  }

  /** The report a history ends in, if any. */
  function Verdict(s: Settings, name: string, h: History): seq<Change> {
    if Reports(s, h) then [Change(name, Reported(s, h.before), h.now.state)] else []
  }

  /** The reports of one poll, in row order. */
  function PollChanges(s: Settings, lives: Lives, rows: seq<WatchedContainer>, ignore: set<string>, at: int)
    : seq<Change>
  {
    if rows == [] then []
    else
      var n := |rows| - 1;
      var c, rest := rows[n], SeeRows(lives, rows[..n], ignore, at);
      PollChanges(s, lives, rows[..n], ignore, at)
      + if Counted(c, ignore) then Verdict(s, c.name, Extend(LifeIn(rest, c.name), SightingIn(c, at))) else []
  }

  lemma {:induction false} SeeRowsKeys(lives: Lives, rows: seq<WatchedContainer>, ignore: set<string>, at: int)
    ensures SeeRows(lives, rows, ignore, at).Keys == lives.Keys + Seen(rows, ignore)
  {
    if rows != [] {
      var n := |rows| - 1;
      SeeRowsKeys(lives, rows[..n], ignore, at);
      assert rows == rows[..n] + [rows[n]];
      SeenExtends(rows[..n], rows[n], ignore);
    }
  }

  ghost predicate Summarizes(s: Settings, states: map<string, Tracked>, lives: Lives) {
    && states.Keys == lives.Keys
    && forall n :: n in lives ==> states[n] == Summary(s, lives[n])
  }

  class ContainerStatusTracker {
    const settings: Settings
    var states: map<string, Tracked>
    /** What each tracked container has shown since it was last learned. */
    ghost var lives: Lives

    ghost predicate Valid()
      reads this
    {
      Summarizes(settings, states, lives)
    }

    constructor (settings: Settings)
      ensures Valid() && lives == map[] && this.settings == settings
    {
      this.settings := settings;
      states := map[];
      lives := map[];
    }

    method Observe(rows: seq<WatchedContainer>, ignore: set<string>, t: int) returns (changes: seq<Change>)
      requires Valid()
      modifies this
      ensures Valid()
      ensures lives == SeePoll(old(lives), rows, ignore, t)
      ensures changes == PollChanges(settings, old(lives), rows, ignore, t)
      ensures states.Keys == Seen(rows, ignore)
    {
      changes := [];
      var seen: set<string> := {};
      for i := 0 to |rows|
        invariant Valid()
        invariant lives == SeeRows(old(lives), rows[..i], ignore, t)
        invariant changes == PollChanges(settings, old(lives), rows[..i], ignore, t)
        invariant seen == Seen(rows[..i], ignore)
      {
        var c := rows[i];
        assert rows[..i + 1] == rows[..i] + [c];
        SeenExtends(rows[..i], c, ignore);
        if !IsManagedName(c.name) || c.name in ignore { continue; }
        seen := seen + {c.name};
        var more := ObserveRow(c, t);
        changes := changes + more;
      }
      assert rows[..|rows|] == rows;
      SeeRowsKeys(old(lives), rows, ignore, t);
      DeleteUnseen(seen);
      lives := map name | name in lives && name in seen :: lives[name];
    }

    /** The body of the loop for a row that counts. */
    method ObserveRow(c: WatchedContainer, t: int) returns (changes: seq<Change>)
      requires Valid()
      modifies this
      ensures Valid()
      ensures lives == SeeRow(old(lives), c, t)
      ensures changes == Verdict(settings, c.name, lives[c.name])
    {
      changes := [];
      var state := EffectiveState(c);
      lives := SeeRow(lives, c, t);
      if c.name !in states {
        states := states[c.name := Tracked(state, None, 0, None)];
        return;
      }
      SummaryExtends(settings, old(lives)[c.name], Sighting(t, state));
      var tracked := states[c.name];
      if state == tracked.reported {
        states := states[c.name := tracked.(candidate := None, candidatePolls := 0)];
        return;
      }
      if tracked.candidate == Some(state) {
        tracked := tracked.(candidatePolls := tracked.candidatePolls + 1);
      } else {
        tracked := tracked.(candidate := Some(state), candidatePolls := 1);
      }
      if tracked.candidatePolls < settings.confirmPolls
         || (tracked.lastReportedAt.Some? && t - tracked.lastReportedAt.value < settings.minIntervalMs) {
        states := states[c.name := tracked];
        return;
      }
      changes := [Change(c.name, tracked.reported, state)];
      states := states[c.name := Tracked(state, None, 0, Some(t))];
    }

    method DeleteUnseen(seen: set<string>)
      modifies this`states
      ensures states == map n | n in old(states) && n in seen :: old(states)[n]
    {
      var names := states.Keys;
      while names != {}
        invariant names <= states.Keys <= old(states).Keys
        invariant forall n :: n in old(states) && (n in seen || n in names) ==> n in states
        invariant forall n :: n in states ==> states[n] == old(states)[n] && (n in seen || n in names)
        decreases |names|
      {
        var name :| name in names;
        names := names - {name};
        if name !in seen {
          states := states - {name};
        }
      }
    }
  }

  // ---------------------------------------------------------------- whole runs

  datatype Poll = Poll(at: int, rows: seq<WatchedContainer>, ignore: set<string>)

  /** The histories a tracker holds after a run of polls. */
  function LivesAfter(polls: seq<Poll>): Lives {
    if polls == [] then map[]
    else
      var p := polls[|polls| - 1];
      SeePoll(LivesAfter(polls[..|polls| - 1]), p.rows, p.ignore, p.at)
  }

  ghost predicate DistinctNames(rows: seq<WatchedContainer>) {
    forall i, j :: 0 <= i < j < |rows| ==> rows[i].name != rows[j].name
  }

  /** What a poll shows of one container. */
  function SightingOf(name: string, p: Poll): Option<Sighting> {
    FindSighting(name, p.rows, p.ignore, p.at)
  }

  function FindSighting(name: string, rows: seq<WatchedContainer>, ignore: set<string>, at: int): Option<Sighting> {
    if rows == [] then None
    else if rows[|rows| - 1].name == name && Counted(rows[|rows| - 1], ignore) then
      Some(SightingIn(rows[|rows| - 1], at))
    else FindSighting(name, rows[..|rows| - 1], ignore, at)
  }

  /** One container's history, computed from its own rows only: a poll without it starts it over. */
  function OwnHistory(name: string, polls: seq<Poll>): Option<History> {
    if polls == [] then None
    else
      var now := SightingOf(name, polls[|polls| - 1]);
      if now.None? then None else Some(Extend(OwnHistory(name, polls[..|polls| - 1]), now.value))
  }

  lemma {:induction false} RowsShow(
      lives: Lives, name: string, rows: seq<WatchedContainer>, ignore: set<string>, at: int)
    requires DistinctNames(rows)
    ensures var now, life := FindSighting(name, rows, ignore, at), LifeIn(lives, name);
            && (now.Some? <==> name in Seen(rows, ignore))
            && LifeIn(SeeRows(lives, rows, ignore, at), name)
               == (if now.None? then life else Some(Extend(life, now.value)))
  {
    if rows != [] {
      var n := |rows| - 1;
      var c := rows[n];
      RowsShow(lives, name, rows[..n], ignore, at);
      assert rows == rows[..n] + [c];
      SeenExtends(rows[..n], c, ignore);
      if c.name == name {
        assert name !in Seen(rows[..n], ignore);
      }
    }
  }

  /** Within one poll with distinct names, each container gets its own sighting and nothing else. */
  lemma {:induction false} RowsAreIndependent(
      s: Settings, lives: Lives, name: string, rows: seq<WatchedContainer>, ignore: set<string>, at: int)
    requires DistinctNames(rows)
    ensures var now, life := FindSighting(name, rows, ignore, at), LifeIn(lives, name);
            && (now.Some? <==> name in Seen(rows, ignore))
            && LifeIn(SeeRows(lives, rows, ignore, at), name)
               == (if now.None? then life else Some(Extend(life, now.value)))
            && forall ch :: ch in PollChanges(s, lives, rows, ignore, at) && ch.name == name <==>
                            now.Some? && ch in Verdict(s, name, Extend(life, now.value))
  {
    hide SeeRows, LifeIn, Reports;
    RowsShow(lives, name, rows, ignore, at);
    if rows != [] {
      var n := |rows| - 1;
      RowsAreIndependent(s, lives, name, rows[..n], ignore, at);
      if rows[n].name == name {
        assert name !in Seen(rows[..n], ignore);
      }
    }
  }

  ghost predicate AllDistinct(polls: seq<Poll>) {
    forall i :: 0 <= i < |polls| ==> DistinctNames(polls[i].rows)
  }

  /** A container's state in the tracker depends only on its own rows since it was last learned. */
  lemma {:induction false} HistoryIsOwn(name: string, polls: seq<Poll>)
    requires AllDistinct(polls)
    ensures LifeIn(LivesAfter(polls), name) == OwnHistory(name, polls)
  {
    if polls != [] {
      var before, p := polls[..|polls| - 1], polls[|polls| - 1];
      HistoryIsOwn(name, before);
      RowsAreIndependent(Settings(0, 0), LivesAfter(before), name, p.rows, p.ignore, p.at);
      SeeRowsKeys(LivesAfter(before), p.rows, p.ignore, p.at);
    }
  }

  /**
   * For every run of polls with distinct names: a change is reported exactly when the container's own
   * history ends in a report, and the tracker then knows exactly the counted names of the last poll.
   */
  lemma {:induction false} ReportedExactlyWhen(s: Settings, polls: seq<Poll>, ch: Change)
    requires polls != [] && AllDistinct(polls)
    ensures var h, before, p := OwnHistory(ch.name, polls), polls[..|polls| - 1], polls[|polls| - 1];
            && (ch in PollChanges(s, LivesAfter(before), p.rows, p.ignore, p.at) <==>
                h.Some? && Reports(s, h.value) && ch.from == Reported(s, h.value.before) && ch.to == h.value.now.state)
            && LivesAfter(polls).Keys == Seen(p.rows, p.ignore)
  {
    var before, p := polls[..|polls| - 1], polls[|polls| - 1];
    HistoryIsOwn(ch.name, before);
    RowsAreIndependent(s, LivesAfter(before), ch.name, p.rows, p.ignore, p.at);
    SeeRowsKeys(LivesAfter(before), p.rows, p.ignore, p.at);
  }

  // ---------------------------------------------------------------- the chain of reports

  datatype Report = Report(at: int, from: string, to: string)

  /** All reports of one uninterrupted life, oldest first. */
  function ReportLog(s: Settings, h: History): seq<Report> {
    if h.Learned? then []
    else if Reports(s, h) then ReportLog(s, h.before) + [Report(h.now.at, Reported(s, h.before), h.now.state)]
    else ReportLog(s, h.before)
  }

  ghost predicate Chain(s: Settings, learned: string, log: seq<Report>) {
    forall i :: 0 <= i < |log| ==> Linked(s, learned, log, i)
  }

  /** A real change from where the one before it ended, and not too early. */
  ghost predicate Linked(s: Settings, learned: string, log: seq<Report>, i: nat)
    requires i < |log|
  {
    && log[i].from != log[i].to
    && log[i].from == (if i == 0 then learned else log[i - 1].to)
    && (i > 0 ==> log[i].at - log[i - 1].at >= s.minIntervalMs)
  }

  lemma {:induction false} ChainExtends(s: Settings, learned: string, log: seq<Report>, r: Report)
    requires Chain(s, learned, log)
    requires r.from != r.to && r.from == if log == [] then learned else log[|log| - 1].to
    requires log != [] ==> r.at - log[|log| - 1].at >= s.minIntervalMs
    ensures Chain(s, learned, log + [r])
  {
    var longer := log + [r];
    forall i | 0 <= i < |longer| ensures Linked(s, learned, longer, i) {
      if i < |log| {
        assert Linked(s, learned, log, i) && longer[i] == log[i];
      }
    }
  }

  /** From the learned state on, reports form a chain of real changes, at least the minimum interval apart. */
  lemma {:induction false} ReportsFormAChain(s: Settings, h: History)
    ensures var log, last := ReportLog(s, h), LastReport(s, h);
            && Chain(s, FirstState(h), log)
            && (last.None? <==> log == [])
            && (last.Some? ==> log[|log| - 1].at == last.value.at && log[|log| - 1].to == last.value.state)
  {
    if h.Then? {
      ReportsFormAChain(s, h.before);
      ReportedAfter(s, h);
      assert FirstState(h) == FirstState(h.before);
      if Reports(s, h) {
        ChainExtends(s, FirstState(h), ReportLog(s, h.before), Report(h.now.at, Reported(s, h.before), h.now.state));
      }
    }
  }

  /** A flapping container produces at most one message per interval. */
  lemma {:induction false} AtMostOnePerInterval(s: Settings, h: History, i: nat, j: nat)
    requires s.minIntervalMs >= 0
    requires i < j < |ReportLog(s, h)|
    ensures ReportLog(s, h)[j].at - ReportLog(s, h)[i].at >= s.minIntervalMs
    decreases j
  {
    ReportsFormAChain(s, h);
    assert Linked(s, FirstState(h), ReportLog(s, h), j);
    if i < j - 1 {
      AtMostOnePerInterval(s, h, i, j - 1);
    }
  }

  /** A blip is never reported: the last confirmPolls sightings up to a report all show the new state. */
  lemma {:induction false} BlipsAreNeverReported(s: Settings, h: History)
    requires Reports(s, h)
    ensures s.confirmPolls < Length(h)
    ensures forall k :: 0 <= k < Max(1, s.confirmPolls) ==> Back(h, k).state == h.now.state != Reported(s, h.before)
  {
    RunIsMaximal(h);
    if RunLength(h) == Length(h) {
      ConstantIsReported(s, h);
    }
  }

  lemma {:induction false} ConstantIsReported(s: Settings, h: History)
    requires RunLength(h) == Length(h)
    ensures Reported(s, h) == h.now.state && !Reports(s, h)
  {
    if h.Then? {
      ConstantIsReported(s, h.before);
      ReportedAfter(s, h);
    }
  }

  lemma {:induction false} LongRun(h: History, n: nat)
    requires n <= Length(h) && forall k :: 0 <= k < n ==> Back(h, k).state == h.now.state
    ensures RunLength(h) >= n
  {
    if n > 1 {
      assert Back(h, 1).state == h.before.now.state;
      forall k | 0 <= k < n - 1 ensures Back(h.before, k).state == h.before.now.state {
        assert Back(h, k + 1) == Back(h.before, k);
      }
      LongRun(h.before, n - 1);
    }
  }

  /** The state the reports of a life have told last; the learned one before there is a report. */
  function Told(s: Settings, h: History): string {
    var log := ReportLog(s, h);
    if log == [] then FirstState(h) else log[|log| - 1].to
  }

  lemma {:induction false} ToldIsReported(s: Settings, h: History)
    ensures Told(s, h) == Reported(s, h)
  {
    ReportsFormAChain(s, h);
  }

  /**
   * A state that stays long enough is told: once it was seen on `confirmPolls` polls in a row and the pause since the
   * last report is over, it is the state told last.
   */
  lemma {:induction false} SettledStateIsReported(s: Settings, h: History)
    requires s.confirmPolls <= Length(h)
    requires forall k :: 0 <= k < s.confirmPolls ==> Back(h, k).state == h.now.state
    requires var log := if h.Then? then ReportLog(s, h.before) else [];
             log != [] ==> h.now.at - log[|log| - 1].at >= s.minIntervalMs
    ensures Told(s, h) == h.now.state
  {
    LongRun(h, Max(1, s.confirmPolls));
    ToldIsReported(s, h);
    if h.Then? {
      ReportedAfter(s, h);
      ReportsFormAChain(s, h.before);
    }
  }

  // ---------------------------------------------------------------- what a poll shows

  /** The containers that count: names that start with `yeah-`, one of three kinds and a dash. */
  lemma {:induction false} ManagedExactly(name: string)
    ensures IsManagedName(name) <==>
            exists kind, rest :: kind in ["app", "db", "svc"] && name == "yeah-" + kind + "-" + rest
  {
    if "yeah-app-" <= name {
      assert name == "yeah-" + "app" + "-" + name[9..];
      assert "app" in ["app", "db", "svc"];
    }
    if "yeah-db-" <= name {
      assert name == "yeah-" + "db" + "-" + name[8..];
      assert "db" in ["app", "db", "svc"];
    }
    if "yeah-svc-" <= name {
      assert name == "yeah-" + "svc" + "-" + name[9..];
      assert "svc" in ["app", "db", "svc"];
    }
    if kind, rest :| kind in ["app", "db", "svc"] && name == "yeah-" + kind + "-" + rest {
      assert "yeah-" + kind + "-" <= name;
      assert "yeah-" + "app" + "-" == "yeah-app-";
      assert "yeah-" + "db" + "-" == "yeah-db-" && "yeah-" + "svc" + "-" == "yeah-svc-";
    }
  }

  /** A failing healthcheck shows exactly on a running container; otherwise its status does. */
  lemma {:induction false} UnhealthyExactlyWhen(c: WatchedContainer)
    ensures c.status == "running" ==> EffectiveState(c) == if c.health == "unhealthy" then "unhealthy" else "running"
    ensures c.status != "running" ==> EffectiveState(c) == c.status
  {
  }

  /**
   * A poll shows a container exactly if it has a row of a managed name that is not ignored, and shows that
   * row's state.
   */
  lemma {:induction false} SightingExactlyWhen(name: string, p: Poll, now: Sighting)
    requires DistinctNames(p.rows)
    ensures SightingOf(name, p) == Some(now) <==>
            IsManagedName(name) && name !in p.ignore && now.at == p.at
            && exists c :: c in p.rows && c.name == name && now.state == EffectiveState(c)
  {
    hide IsManagedName, EffectiveState, DistinctNames, FindSighting;
    if c :| c in p.rows && c.name == name {
      RowIsFound(name, p.rows, p.ignore, p.at, c);
    } else {
      NoRowIsFound(name, p.rows, p.ignore, p.at);
    }
  }

  lemma {:induction false} NoRowIsFound(name: string, rows: seq<WatchedContainer>, ignore: set<string>, at: int)
    requires forall c :: c in rows ==> c.name != name
    ensures FindSighting(name, rows, ignore, at).None?
    decreases |rows|
  {
    hide Counted;
    if rows != [] {
      NoRowIsFound(name, rows[..|rows| - 1], ignore, at);
    }
  }

  lemma {:induction false} RowIsFound(
      name: string, rows: seq<WatchedContainer>, ignore: set<string>, at: int, c: WatchedContainer)
    requires DistinctNames(rows) && c in rows && c.name == name
    ensures FindSighting(name, rows, ignore, at) == if Counted(c, ignore) then Some(SightingIn(c, at)) else None
    ensures forall d :: d in rows && d.name == name ==> d == c
    decreases |rows|
  {
    hide Counted, SightingIn;
    var n := |rows| - 1;
    var i :| 0 <= i < |rows| && rows[i] == c;
    forall d | d in rows && d.name == name ensures d == c {
      var j :| 0 <= j < |rows| && rows[j] == d;
    }
    if i < n {
      assert rows[..n][i] == c;
      RowIsFound(name, rows[..n], ignore, at, c);
    } else {
      forall d | d in rows[..n] ensures d.name != name {
        var j :| 0 <= j < n && rows[j] == d;
      }
      NoRowIsFound(name, rows[..n], ignore, at);
    }
  }

  /**
   * A history reaches back over all polls in a row that show the container: its k-th sighting from the end is what
   * the k-th poll from the end shows, and the poll before its first one does not show the container.
   */
  lemma {:induction false} HistoryIsWhatPollsShow(name: string, polls: seq<Poll>)
    ensures var h := OwnHistory(name, polls);
            && (h.None? <==> polls == [] || SightingOf(name, polls[|polls| - 1]).None?)
            && (h.Some? ==>
                  && Length(h.value) <= |polls|
                  && (forall k :: 0 <= k < Length(h.value) ==>
                        SightingOf(name, polls[|polls| - 1 - k]) == Some(Back(h.value, k)))
                  && (Length(h.value) < |polls| ==> SightingOf(name, polls[|polls| - 1 - Length(h.value)]).None?))
    decreases |polls|
  {
    hide SightingOf;
    if polls != [] {
      var n := |polls| - 1;
      HistoryIsWhatPollsShow(name, polls[..n]);
      var h, before := OwnHistory(name, polls), OwnHistory(name, polls[..n]);
      if h.Some? {
        forall k | 0 <= k < Length(h.value) ensures SightingOf(name, polls[n - k]) == Some(Back(h.value, k)) {
          if k > 0 {
            assert polls[..n][n - 1 - (k - 1)] == polls[n - k];
          }
        }
        if before.Some? && Length(h.value) < |polls| {
          assert polls[..n][n - 1 - Length(before.value)] == polls[n - Length(h.value)];
        }
      }
    }
  }

  /** The tracker knows exactly the managed names of the last poll that are not ignored. */
  lemma {:induction false} TrackedExactly(polls: seq<Poll>, name: string)
    requires polls != []
    ensures var p := polls[|polls| - 1];
            name in LivesAfter(polls) <==>
            IsManagedName(name) && name !in p.ignore && exists c :: c in p.rows && c.name == name
  {
    hide IsManagedName, SeeRows;
    var p := polls[|polls| - 1];
    SeeRowsKeys(LivesAfter(polls[..|polls| - 1]), p.rows, p.ignore, p.at);
  }

  /** The changes of a poll come in the order of its rows, at most one a row. */
  lemma {:induction false} ChangesFollowRows(
      s: Settings, lives: Lives, rows: seq<WatchedContainer>, ignore: set<string>, at: int) returns (from: seq<nat>)
    ensures var changes := PollChanges(s, lives, rows, ignore, at);
            && |from| == |changes|
            && (forall i :: 0 <= i < |from| ==> from[i] < |rows| && rows[from[i]].name == changes[i].name)
            && forall i, j :: 0 <= i < j < |from| ==> from[i] < from[j]
    decreases |rows|
  {
    hide SeeRows, Reports, Reported;
    if rows == [] {
      from := [];
    } else {
      var n := |rows| - 1;
      from := ChangesFollowRows(s, lives, rows[..n], ignore, at);
      var before, all := PollChanges(s, lives, rows[..n], ignore, at), PollChanges(s, lives, rows, ignore, at);
      if |all| > |before| {
        from := from + [n];
      }
    }
  }
}
