/**
 * The WebSocket service (apps/ws/src/index.ts) with its delivery rule (packages/shared/src/wsAuth.ts): events are
 * routed to the team that owns a resource, and owners are looked up in the database through a bounded cache with
 * a time to live. Every stretch of code between two awaits is one step, so any interleaving is a list of steps.
 */
module OwnerCache {
  import opened Wrappers
  import opened Text
  import opened StableSort

  // ---------------------------------------------------------------- routing

  datatype Kind = Server | Service | Application | Database | Deployment | BackupSchedule

  datatype Resource = Resource(kind: Kind, id: string)

  datatype Route = ToAll | ToTeam(teamId: string) | ToOwner(resource: Resource)

  /** What an event is about: a resource of some kind, the platform itself, or something the service does not know. */
  datatype Subject = About(kind: Kind) | Platform | Unknown

  /** `teamId` and `resourceId` are absent where the event has no such string. */
  datatype Event = Event(subject: Subject, teamId: Option<string>, resourceId: Option<string>)

  function RouteEvent(e: Event): Option<Route> {
    if e.teamId.Some? && e.teamId.value != "" then Some(ToTeam(e.teamId.value))
    else
      match e.subject
      case About(kind) =>
        if e.resourceId.Some? && e.resourceId.value != "" then Some(ToOwner(Resource(kind, e.resourceId.value)))
        else None
      case Platform => Some(ToAll)
      case Unknown => None
  }

  predicate CanReceive(route: Route, owner: Option<string>, teams: set<string>) {
    match route
    case ToAll => true
    case ToTeam(team) => team in teams
    case ToOwner(_) => owner.Some? && owner.value in teams
  }

  /** Only events of the platform that name no team go to everyone; what names neither team nor resource is dropped. */
  lemma {:induction false} BroadcastOnlyForThePlatform(e: Event)
    ensures RouteEvent(e) == Some(ToAll) <==> e.subject.Platform? && e.teamId in {None, Some("")}
    ensures RouteEvent(e) == None <==>
            e.teamId in {None, Some("")}
            && (e.subject.Unknown? || (e.subject.About? && e.resourceId in {None, Some("")}))
  {
    assert e.teamId in {None, Some("")} <==> e.teamId.None? || e.teamId.value == "";
    assert e.resourceId in {None, Some("")} <==> e.resourceId.None? || e.resourceId.value == "";
  }

  // ---------------------------------------------------------------- cache keys

  function KindName(k: Kind): string {
    match k
    case Server => "server"
    case Service => "service"
    case Application => "application"
    case Database => "database"
    case Deployment => "deployment"
    case BackupSchedule => "backup-schedule"
  }

  function Key(r: Resource): string {
    KindName(r.kind) + [':'] + r.id
  }

  lemma {:induction false} NoColon(k: Kind)
    ensures ':' !in KindName(k)
  {
  }

  lemma {:induction false} SameKind(a: Kind, b: Kind)
    ensures KindName(a) == KindName(b) ==> a == b
  {
    assert |KindName(a)| == |KindName(b)| ==> a == b;
  }

  /** Two resources never share a cache entry. */
  lemma {:induction false} KeysAreDistinct(a: Resource, b: Resource)
    ensures Key(a) == Key(b) <==> a == b
  {
    hide IndexOfChar, KindName;
    if Key(a) == Key(b) {
      NoColon(a.kind);
      NoColon(b.kind);
      SameKind(a.kind, b.kind);
      IndexAfter(KindName(a.kind), ':', a.id);
      IndexAfter(KindName(b.kind), ':', b.id);
      var n := |KindName(a.kind)|;
      assert Key(a)[..n] == KindName(a.kind) && Key(b)[..n] == KindName(b.kind);
      assert Key(a)[n + 1..] == a.id && Key(b)[n + 1..] == b.id;
    }
  }

  // ---------------------------------------------------------------- state

  const OWNER_TTL_MS := 300000
  const OWNER_CACHE_MAX := 5000

  datatype CacheEntry = CacheEntry(teamId: string, expires: int)

  datatype Client = Client(id: nat, teams: set<string>)

  /** A dispatch between two awaits. */
  datatype Flight =
    | Reading(resource: Resource)
    | Answered(resource: Resource, team: Option<string>)
    | Resolved(resource: Resource, owner: Option<string>)

  datatype Entry =
    | Stored(key: string, teamId: string, at: int)
    | Hit(key: string, teamId: string, at: int)
    | Delivered(route: Route, owner: Option<string>, receivers: seq<Client>)

  /**
   * The service's variables (`clients` in the order they connected), the database rows with their owners, the
   * clock, the dispatches in flight, the number of running sweeps, and the log of what happened.
   */
  datatype State = State(
    cache: map<string, CacheEntry>, clients: seq<Client>, refreshing: bool,
    rows: map<Resource, string>, clock: int, flights: map<nat, Flight>, sweeps: nat, log: seq<Entry>)

  const START := State(map[], [], false, map[], 0, map[], 0, [])

  datatype Step =
    | Tick(ms: int)
    | Create(resource: Resource)
    | Remove(resource: Resource)
    | Open(id: nat, teams: set<string>)
    | Close(id: nat)
    | Begin(dispatch: nat, event: Event)
    | Read(dispatch: nat)
    | Fail(dispatch: nat)
    | Finish(dispatch: nat)
    | Deliver(dispatch: nat)
    | BeginSweep
    | Reload(id: nat, teams: set<string>)
    | EndSweep

  // ---------------------------------------------------------------- steps

  function Admits(route: Route, owner: Option<string>): Client -> bool {
    (c: Client) => CanReceive(route, owner, c.teams)
  }

  function Receivers(clients: seq<Client>, route: Route, owner: Option<string>): (r: seq<Client>)
    ensures forall c :: c in r <==> c in clients && CanReceive(route, owner, c.teams)
  {
    Filter(clients, Admits(route, owner))
  }

  function Send(s: State, route: Route, owner: Option<string>): State {
    s.(log := s.log + [Delivered(route, owner, Receivers(s.clients, route, owner))])
  }

  /** The cached owner of a resource, unless it has expired. */
  function CacheHit(s: State, r: Resource): Option<string> {
    if Key(r) in s.cache && s.cache[Key(r)].expires > s.clock then Some(s.cache[Key(r)].teamId) else None
  }

  function Lookup(s: State, r: Resource): Option<string> {
    if r in s.rows then Some(s.rows[r]) else None
  }

  /** `dispatch` up to its first await. */
  function Begun(s: State, dispatch: nat, event: Event): State {
    var route := RouteEvent(event);
    if dispatch in s.flights || route.None? || s.clients == [] then s
    else if !route.value.ToOwner? then Send(s, route.value, None)
    else
      var r := route.value.resource;
      var hit := CacheHit(s, r);
      if hit.Some? then
        s.(flights := s.flights[dispatch := Resolved(r, hit)], log := s.log + [Hit(Key(r), hit.value, s.clock)])
      else
        s.(flights := s.flights[dispatch := Reading(r)])
  }

  /** The database answers. */
  function ReadDone(s: State, dispatch: nat): State {
    if dispatch in s.flights && s.flights[dispatch].Reading? then
      var r := s.flights[dispatch].resource;
      s.(flights := s.flights[dispatch := Answered(r, Lookup(s, r))])
    else s
  }

  /** An answer goes into the cache, which is cleared first if it is full. */
  function Cached(s: State, r: Resource, teamId: string): State {
    s.(cache := (if |s.cache| >= OWNER_CACHE_MAX then map[] else s.cache)
                [Key(r) := CacheEntry(teamId, s.clock + OWNER_TTL_MS)],
       log := s.log + [Stored(Key(r), teamId, s.clock)])
  }

  /** `ownerOf` after its await. */
  function Finished(s: State, dispatch: nat): State {
    if dispatch in s.flights && s.flights[dispatch].Answered? then
      var r, team := s.flights[dispatch].resource, s.flights[dispatch].team;
      var resolved := s.(flights := s.flights[dispatch := Resolved(r, team)]);
      if team.Some? && team.value != "" then Cached(resolved, r, team.value) else resolved
    else s
  }

  /** `dispatch` after its await. */
  function Sent(s: State, dispatch: nat): State {
    if dispatch in s.flights && s.flights[dispatch].Resolved? then
      var f := s.flights[dispatch];
      Send(s.(flights := s.flights - {dispatch}), ToOwner(f.resource), f.owner)
    else s
  }

  function WithTeams(clients: seq<Client>, id: nat, teams: set<string>): (r: seq<Client>)
    ensures |r| == |clients|
    ensures forall i :: 0 <= i < |r| ==> r[i] == if clients[i].id == id then Client(id, teams) else clients[i]
  {
    if clients == [] then []
    else [if clients[0].id == id then Client(id, teams) else clients[0]] + WithTeams(clients[1..], id, teams)
  }

  /** One step, where `truth` is the team that owns a resource for good: rows come and go, but are never handed over. */
  function Next(s: State, step: Step, truth: Resource -> string): State {
    match step
    case Tick(ms) => s.(clock := s.clock + ms)
    case Create(r) => s.(rows := s.rows[r := truth(r)])
    case Remove(r) => s.(rows := s.rows - {r})
    case Open(id, teams) =>
      if exists c :: c in s.clients && c.id == id then s else s.(clients := s.clients + [Client(id, teams)])
    case Close(id) => s.(clients := Filter(s.clients, (c: Client) => c.id != id))
    case Begin(dispatch, event) => Begun(s, dispatch, event)
    case Read(dispatch) => ReadDone(s, dispatch)
    case Fail(dispatch) => s.(flights := s.flights - {dispatch})
    case Finish(dispatch) => Finished(s, dispatch)
    case Deliver(dispatch) => Sent(s, dispatch)
    case BeginSweep => if s.refreshing then s else s.(refreshing := true, sweeps := s.sweeps + 1)
    case Reload(id, teams) => if s.sweeps > 0 then s.(clients := WithTeams(s.clients, id, teams)) else s
    case EndSweep => if s.sweeps > 0 then s.(refreshing := false, sweeps := s.sweeps - 1) else s
  }

  // ---------------------------------------------------------------- the invariant

  ghost predicate CacheIsTrue(s: State, truth: Resource -> string) {
    && |s.cache| <= OWNER_CACHE_MAX
    && forall r :: Key(r) in s.cache ==> s.cache[Key(r)].teamId == truth(r)
  }

  ghost predicate CacheIsRecent(s: State) {
    forall k :: k in s.cache ==>
      var e := s.cache[k]; Stored(k, e.teamId, e.expires - OWNER_TTL_MS) in s.log
  }

  ghost predicate RowsAreTrue(s: State, truth: Resource -> string) {
    forall r :: r in s.rows ==> s.rows[r] == truth(r)
  }

  ghost predicate FlightIsTrue(f: Flight, truth: Resource -> string) {
    match f
    case Reading(_) => true
    case Answered(r, team) => team in {None, Some(truth(r))}
    case Resolved(r, owner) => owner in {None, Some(truth(r))}
  }

  ghost predicate FlightsAreTrue(s: State, truth: Resource -> string) {
    forall d :: d in s.flights ==> FlightIsTrue(s.flights[d], truth)
  }

  /** A hit answers what was stored less than the time to live before; receivers are admitted by the true owner. */
  ghost predicate GoodEntry(before: seq<Entry>, e: Entry, truth: Resource -> string) {
    match e
    case Stored(_, _, _) => true
    case Hit(key, team, at) => exists s :: Stored(key, team, s) in before && at < s + OWNER_TTL_MS
    case Delivered(route, owner, receivers) =>
      && (forall c :: c in receivers ==> CanReceive(route, owner, c.teams))
      && (route.ToOwner? ==> owner in {None, Some(truth(route.resource))})
  }

  ghost predicate GoodLog(log: seq<Entry>, truth: Resource -> string) {
    forall i :: 0 <= i < |log| ==> GoodEntry(log[..i], log[i], truth)
  }

  ghost predicate Valid(s: State, truth: Resource -> string) {
    && CacheIsTrue(s, truth) && CacheIsRecent(s) && RowsAreTrue(s, truth) && FlightsAreTrue(s, truth)
    && GoodLog(s.log, truth)
    && s.sweeps == if s.refreshing then 1 else 0
  }

  lemma {:induction false} LogGrows(log: seq<Entry>, e: Entry, truth: Resource -> string)
    requires GoodLog(log, truth) && GoodEntry(log, e, truth)
    ensures GoodLog(log + [e], truth)
    ensures forall x :: x in log ==> x in log + [e]
  {
    hide GoodEntry;
    var log' := log + [e];
    forall i | 0 <= i < |log'| ensures GoodEntry(log'[..i], log'[i], truth) {
      if i < |log| {
        assert log'[..i] == log[..i];
      } else {
        assert log'[..i] == log;
      }
    }
  }

  /** The parts of the invariant that a step leaves alone. */
  lemma {:induction false} SameParts(s: State, t: State, truth: Resource -> string)
    ensures s.cache == t.cache && CacheIsTrue(s, truth) ==> CacheIsTrue(t, truth)
    ensures s.cache == t.cache && (forall x :: x in s.log ==> x in t.log) && CacheIsRecent(s) ==> CacheIsRecent(t)
    ensures s.rows == t.rows && RowsAreTrue(s, truth) ==> RowsAreTrue(t, truth)
    ensures s.flights == t.flights && FlightsAreTrue(s, truth) ==> FlightsAreTrue(t, truth)
  {
  }

  lemma {:induction false} EntryKeeps(s: State, e: Entry, truth: Resource -> string)
    requires Valid(s, truth) && GoodEntry(s.log, e, truth)
    ensures Valid(s.(log := s.log + [e]), truth)
  {
    hide GoodLog, GoodEntry, CacheIsTrue, CacheIsRecent, FlightsAreTrue, RowsAreTrue;
    LogGrows(s.log, e, truth);
    SameParts(s, s.(log := s.log + [e]), truth);
  }

  lemma {:induction false} FlightKeeps(s: State, dispatch: nat, f: Flight, truth: Resource -> string)
    requires Valid(s, truth) && FlightIsTrue(f, truth)
    ensures Valid(s.(flights := s.flights[dispatch := f]), truth)
    ensures Valid(s.(flights := s.flights - {dispatch}), truth)
  {
    hide GoodLog, CacheIsTrue, CacheIsRecent, RowsAreTrue, FlightIsTrue;
    SameParts(s, s.(flights := s.flights[dispatch := f]), truth);
    SameParts(s, s.(flights := s.flights - {dispatch}), truth);
  }

  lemma {:induction false} CachedIsTrue(s: State, r: Resource, truth: Resource -> string)
    requires CacheIsTrue(s, truth)
    ensures CacheIsTrue(Cached(s, r, truth(r)), truth)
  {
    hide Key;
    var t := Cached(s, r, truth(r));
    forall x | Key(x) in t.cache ensures t.cache[Key(x)].teamId == truth(x) {
      KeysAreDistinct(x, r);
    }
  }

  lemma {:induction false} CachedIsRecent(s: State, r: Resource, truth: Resource -> string)
    requires CacheIsRecent(s)
    ensures CacheIsRecent(Cached(s, r, truth(r)))
  {
    hide Key;
    var t, e := Cached(s, r, truth(r)), Stored(Key(r), truth(r), s.clock);
    assert e in t.log && forall x :: x in s.log ==> x in t.log;
  }

  lemma {:induction false} CachedKeeps(s: State, r: Resource, truth: Resource -> string)
    requires Valid(s, truth)
    ensures Valid(Cached(s, r, truth(r)), truth)
  {
    hide GoodLog, CacheIsTrue, CacheIsRecent, FlightsAreTrue, RowsAreTrue, Key;
    CachedIsTrue(s, r, truth);
    CachedIsRecent(s, r, truth);
    LogGrows(s.log, Stored(Key(r), truth(r), s.clock), truth);
    SameParts(s, Cached(s, r, truth(r)), truth);
  }

  lemma {:induction false} SendKeeps(s: State, route: Route, owner: Option<string>, truth: Resource -> string)
    requires Valid(s, truth) && (route.ToOwner? ==> owner in {None, Some(truth(route.resource))})
    ensures Valid(Send(s, route, owner), truth)
  {
    hide Valid, CanReceive;
    EntryKeeps(s, Delivered(route, owner, Receivers(s.clients, route, owner)), truth);
  }

  /** A hit has the true owner, stored less than the time to live ago. */
  lemma {:induction false} HitIsGood(s: State, r: Resource, truth: Resource -> string)
    requires Valid(s, truth)
    ensures var hit := CacheHit(s, r);
            hit.Some? ==> hit.value == truth(r) && GoodEntry(s.log, Hit(Key(r), hit.value, s.clock), truth)
  {
    hide GoodLog, RowsAreTrue, FlightsAreTrue, Key;
    if CacheHit(s, r).Some? {
      var e := s.cache[Key(r)];
      assert Stored(Key(r), e.teamId, e.expires - OWNER_TTL_MS) in s.log;
    }
  }

  lemma {:induction false} BeginKeeps(s: State, dispatch: nat, event: Event, truth: Resource -> string)
    requires Valid(s, truth)
    ensures Valid(Begun(s, dispatch, event), truth)
  {
    hide Valid, RouteEvent, Send, CacheHit, GoodEntry, Key;
    var route := RouteEvent(event);
    if dispatch in s.flights || route.None? || s.clients == [] {
    } else if !route.value.ToOwner? {
      SendKeeps(s, route.value, None, truth);
    } else {
      var r := route.value.resource;
      var hit := CacheHit(s, r);
      if hit.Some? {
        HitIsGood(s, r, truth);
        EntryKeeps(s, Hit(Key(r), hit.value, s.clock), truth);
        FlightKeeps(s.(log := s.log + [Hit(Key(r), hit.value, s.clock)]), dispatch, Resolved(r, hit), truth);
      } else {
        FlightKeeps(s, dispatch, Reading(r), truth);
      }
    }
  }

  lemma {:induction false} FlightOf(s: State, dispatch: nat, truth: Resource -> string)
    requires Valid(s, truth) && dispatch in s.flights
    ensures FlightIsTrue(s.flights[dispatch], truth)
  {
    hide GoodLog, CacheIsTrue, CacheIsRecent, RowsAreTrue, FlightIsTrue;
  }

  lemma {:induction false} ReadKeeps(s: State, dispatch: nat, truth: Resource -> string)
    requires Valid(s, truth)
    ensures Valid(ReadDone(s, dispatch), truth)
  {
    hide GoodLog, CacheIsTrue, CacheIsRecent, FlightsAreTrue;
    if dispatch in s.flights && s.flights[dispatch].Reading? {
      var r := s.flights[dispatch].resource;
      FlightKeeps(s, dispatch, Answered(r, Lookup(s, r)), truth);
    }
  }

  lemma {:induction false} FinishKeeps(s: State, dispatch: nat, truth: Resource -> string)
    requires Valid(s, truth)
    ensures Valid(Finished(s, dispatch), truth)
  {
    hide Valid, Cached;
    if dispatch in s.flights && s.flights[dispatch].Answered? {
      FlightOf(s, dispatch, truth);
      var r, team := s.flights[dispatch].resource, s.flights[dispatch].team;
      FlightKeeps(s, dispatch, Resolved(r, team), truth);
      CachedKeeps(s.(flights := s.flights[dispatch := Resolved(r, team)]), r, truth);
    }
  }

  lemma {:induction false} DeliverKeeps(s: State, dispatch: nat, truth: Resource -> string)
    requires Valid(s, truth)
    ensures Valid(Sent(s, dispatch), truth)
  {
    hide Valid, Send;
    if dispatch in s.flights && s.flights[dispatch].Resolved? {
      FlightOf(s, dispatch, truth);
      var f := s.flights[dispatch];
      FlightKeeps(s, dispatch, f, truth);
      SendKeeps(s.(flights := s.flights - {dispatch}), ToOwner(f.resource), f.owner, truth);
    }
  }

  lemma {:induction false} RowsKeep(s: State, r: Resource, truth: Resource -> string)
    requires Valid(s, truth)
    ensures Valid(s.(rows := s.rows[r := truth(r)]), truth)
    ensures Valid(s.(rows := s.rows - {r}), truth)
  {
    hide GoodLog, CacheIsTrue, CacheIsRecent, FlightsAreTrue;
    SameParts(s, s.(rows := s.rows[r := truth(r)]), truth);
    SameParts(s, s.(rows := s.rows - {r}), truth);
  }

  /** The clock, the clients and the sweep flag do not matter to the rest of the invariant. */
  lemma {:induction false} SurroundingsKeep(s: State, t: State, truth: Resource -> string)
    requires Valid(s, truth) && t.sweeps == if t.refreshing then 1 else 0
    requires t == s.(clock := t.clock, clients := t.clients, refreshing := t.refreshing, sweeps := t.sweeps)
    ensures Valid(t, truth)
  {
    hide GoodLog, CacheIsTrue, CacheIsRecent, RowsAreTrue, FlightsAreTrue;
    SameParts(s, t, truth);
  }

  lemma {:induction false} OneSweep(s: State, truth: Resource -> string)
    requires Valid(s, truth)
    ensures s.sweeps == if s.refreshing then 1 else 0
  {
  }

  /** Every stretch of code between two awaits keeps the invariant. */
  lemma {:induction false} StepKeepsValid(s: State, step: Step, truth: Resource -> string)
    requires Valid(s, truth)
    ensures Valid(Next(s, step, truth), truth)
  {
    hide Valid, Begun, ReadDone, Finished, Sent, Filter, WithTeams;
    match step
    case Begin(dispatch, event) => BeginKeeps(s, dispatch, event, truth);
    case Read(dispatch) => ReadKeeps(s, dispatch, truth);
    case Finish(dispatch) => FinishKeeps(s, dispatch, truth);
    case Deliver(dispatch) => DeliverKeeps(s, dispatch, truth);
    case Create(r) => RowsKeep(s, r, truth);
    case Remove(r) => RowsKeep(s, r, truth);
    case Fail(dispatch) => FlightKeeps(s, dispatch, Reading(Resource(Server, "")), truth);
    case _ =>
      OneSweep(s, truth);
      SurroundingsKeep(s, Next(s, step, truth), truth);
  }

  // ---------------------------------------------------------------- whole runs

  function After(steps: seq<Step>, truth: Resource -> string): State
    decreases |steps|
  {
    if steps == [] then START else Next(After(steps[..|steps| - 1], truth), steps[|steps| - 1], truth)
  }

  lemma {:induction false} RunsStayValid(steps: seq<Step>, truth: Resource -> string)
    ensures Valid(After(steps, truth), truth)
    decreases |steps|
  {
    hide Next;
    if steps != [] {
      hide Valid;
      RunsStayValid(steps[..|steps| - 1], truth);
      StepKeepsValid(After(steps[..|steps| - 1], truth), steps[|steps| - 1], truth);
    }
  }

  /** In every interleaving the cache is bounded and holds true owners only, and one sweep runs at a time. */
  lemma {:induction false} CacheStaysTrue(steps: seq<Step>, truth: Resource -> string)
    ensures var s := After(steps, truth);
            && |s.cache| <= 5000
            && (forall r :: Key(r) in s.cache ==> s.cache[Key(r)].teamId == truth(r))
            && s.sweeps <= 1 && (s.refreshing <==> s.sweeps == 1)
  {
    hide After, Key;
    RunsStayValid(steps, truth);
  }

  /** `ownerOf` answers null or the true owner. */
  lemma {:induction false} OwnerIsNullOrTrue(steps: seq<Step>, truth: Resource -> string, dispatch: nat)
    ensures var s := After(steps, truth);
            dispatch in s.flights && s.flights[dispatch].Resolved? ==>
              s.flights[dispatch].owner in {None, Some(truth(s.flights[dispatch].resource))}
  {
    hide After, Key;
    RunsStayValid(steps, truth);
    assert dispatch in After(steps, truth).flights ==> FlightIsTrue(After(steps, truth).flights[dispatch], truth);
  }

  function TimeOf(e: Entry): Option<int> {
    match e
    case Stored(_, _, at) => Some(at)
    case Hit(_, _, at) => Some(at)
    case Delivered(_, _, _) => None
  }

  ghost predicate NotAfter(e: Entry, at: int) {
    TimeOf(e).Some? ==> TimeOf(e).value <= at
  }

  /** No entry is later than one behind it, or than the clock. */
  ghost predicate InTime(log: seq<Entry>, clock: int) {
    && (forall i :: 0 <= i < |log| ==> NotAfter(log[i], clock))
    && forall i, j :: 0 <= i < j < |log| && TimeOf(log[j]).Some? ==> NotAfter(log[i], TimeOf(log[j]).value)
  }

  ghost predicate Forward(steps: seq<Step>) {
    forall i :: 0 <= i < |steps| && steps[i].Tick? ==> steps[i].ms >= 0
  }

  lemma {:induction false} InTimeGrows(log: seq<Entry>, clock: int, e: Entry)
    requires InTime(log, clock) && (TimeOf(e).Some? ==> TimeOf(e).value == clock)
    ensures InTime(log + [e], clock)
  {
    hide TimeOf;
  }

  /** A state after one entry was logged, and at this very time. */
  lemma {:induction false} LoggedInTime(s: State, t: State, e: Entry)
    requires InTime(s.log, s.clock) && t.clock == s.clock && t.log == s.log + [e] && TimeOf(e) in {None, Some(s.clock)}
    ensures InTime(t.log, t.clock)
  {
    hide InTime;
    InTimeGrows(s.log, s.clock, e);
  }

  lemma {:induction false} BeginInTime(s: State, dispatch: nat, event: Event)
    requires InTime(s.log, s.clock)
    ensures InTime(Begun(s, dispatch, event).log, Begun(s, dispatch, event).clock)
  {
    hide InTime, Receivers, RouteEvent, Key, CacheHit;
    var t, route := Begun(s, dispatch, event), RouteEvent(event);
    if !(dispatch in s.flights || route.None? || s.clients == []) {
      if !route.value.ToOwner? {
        LoggedInTime(s, t, Delivered(route.value, None, Receivers(s.clients, route.value, None)));
      } else if CacheHit(s, route.value.resource).Some? {
        var r := route.value.resource;
        LoggedInTime(s, t, Hit(Key(r), CacheHit(s, r).value, s.clock));
      }
    }
  }

  lemma {:induction false} FinishInTime(s: State, dispatch: nat)
    requires InTime(s.log, s.clock)
    ensures InTime(Finished(s, dispatch).log, Finished(s, dispatch).clock)
  {
    hide InTime, Key;
    if dispatch in s.flights && s.flights[dispatch].Answered? {
      var r, team := s.flights[dispatch].resource, s.flights[dispatch].team;
      if team.Some? && team.value != "" {
        LoggedInTime(s, Finished(s, dispatch), Stored(Key(r), team.value, s.clock));
      }
    }
  }

  lemma {:induction false} DeliverInTime(s: State, dispatch: nat)
    requires InTime(s.log, s.clock)
    ensures InTime(Sent(s, dispatch).log, Sent(s, dispatch).clock)
  {
    hide InTime, Receivers;
    if dispatch in s.flights && s.flights[dispatch].Resolved? {
      var f := s.flights[dispatch];
      LoggedInTime(s, Sent(s, dispatch),
                   Delivered(ToOwner(f.resource), f.owner, Receivers(s.clients, ToOwner(f.resource), f.owner)));
    }
  }

  lemma {:induction false} StepInTime(s: State, step: Step, truth: Resource -> string)
    requires InTime(s.log, s.clock) && (step.Tick? ==> step.ms >= 0)
    ensures InTime(Next(s, step, truth).log, Next(s, step, truth).clock)
  {
    hide InTime, Begun, Finished, Sent, Filter, WithTeams;
    match step
    case Begin(dispatch, event) => BeginInTime(s, dispatch, event);
    case Finish(dispatch) => FinishInTime(s, dispatch);
    case Deliver(dispatch) => DeliverInTime(s, dispatch);
    case _ => Later(s.log, s.clock, Next(s, step, truth).clock);
  }

  lemma {:induction false} Later(log: seq<Entry>, clock: int, later: int)
    requires InTime(log, clock) && clock <= later
    ensures InTime(log, later)
  {
  }

  lemma {:induction false} RunsAreInTime(steps: seq<Step>, truth: Resource -> string)
    requires Forward(steps)
    ensures InTime(After(steps, truth).log, After(steps, truth).clock)
    decreases |steps|
  {
    hide Next;
    if steps != [] {
      hide InTime;
      RunsAreInTime(steps[..|steps| - 1], truth);
      StepInTime(After(steps[..|steps| - 1], truth), steps[|steps| - 1], truth);
    }
  }

  /**
   * Every hit repeats what was stored before it, and less than five minutes before it, whatever the clock does;
   * with a clock that never steps back, the storing is also not in its future.
   */
  lemma {:induction false} HitsAreFresh(steps: seq<Step>, truth: Resource -> string, i: nat)
    ensures var log := After(steps, truth).log;
            i < |log| && log[i].Hit? ==>
              exists s, j :: && 0 <= j < i && log[j] == Stored(log[i].key, log[i].teamId, s)
                             && log[i].at < s + 300000 && (Forward(steps) ==> s <= log[i].at)
  {
    hide After, Key;
    RunsStayValid(steps, truth);
    var log := After(steps, truth).log;
    if i < |log| && log[i].Hit? {
      assert GoodEntry(log[..i], log[i], truth);
      var s :| Stored(log[i].key, log[i].teamId, s) in log[..i] && log[i].at < s + OWNER_TTL_MS;
      var j :| 0 <= j < i && log[..i][j] == Stored(log[i].key, log[i].teamId, s);
      assert log[j] == Stored(log[i].key, log[i].teamId, s);
      if Forward(steps) {
        RunsAreInTime(steps, truth);
        assert NotAfter(log[j], log[i].at);
      }
    }
  }

  /** No event ever reaches a client outside the team it is for: the team it names, or the resource's true owner. */
  lemma {:induction false} OnlyTheTeamReceives(steps: seq<Step>, truth: Resource -> string, i: nat, c: Client)
    ensures var log := After(steps, truth).log;
            i < |log| && log[i].Delivered? && c in log[i].receivers ==>
              match log[i].route
              case ToAll => true
              case ToTeam(team) => team in c.teams
              case ToOwner(r) => truth(r) in c.teams
  {
    hide After, Key;
    RunsStayValid(steps, truth);
    var log := After(steps, truth).log;
    if i < |log| {
      assert GoodEntry(log[..i], log[i], truth);
    }
  }

  /** When the owner is known, the event goes to every connected client of the owning team and to no other. */
  lemma {:induction false} TheWholeTeamReceives(steps: seq<Step>, truth: Resource -> string, dispatch: nat, c: Client)
    ensures var s := After(steps, truth);
            dispatch in s.flights && s.flights[dispatch].Resolved? && s.flights[dispatch].owner.Some? ==>
              var log := Next(s, Deliver(dispatch), truth).log;
              |log| == |s.log| + 1 && log[..|s.log|] == s.log && log[|s.log|].Delivered?
              && (c in log[|s.log|].receivers <==> c in s.clients && truth(s.flights[dispatch].resource) in c.teams)
  {
    hide After, Key, Valid;
    OwnerIsNullOrTrue(steps, truth, dispatch);
  }

  /** A hit agrees with the database exactly while the row is still there. */
  lemma {:induction false} HitAgreesExactlyWhileRowExists(steps: seq<Step>, truth: Resource -> string, r: Resource)
    ensures var s := After(steps, truth);
            CacheHit(s, r).Some? ==> (CacheHit(s, r) == Lookup(s, r) <==> r in s.rows)
  {
    hide After, Key;
    RunsStayValid(steps, truth);
  }

  // ---------------------------------------------------------------- every event gets where it should

  lemma {:induction false} OneMore(steps: seq<Step>, step: Step, truth: Resource -> string)
    ensures After(steps + [step], truth) == Next(After(steps, truth), step, truth)
  {
    assert (steps + [step])[..|steps|] == steps;
  }

  /** The log has grown by one delivery, to exactly the clients that satisfy `p`. */
  ghost predicate DeliversTo(before: State, after: State, p: Client -> bool) {
    && |after.log| == |before.log| + 1 && after.log[..|before.log|] == before.log && after.log[|before.log|].Delivered?
    && forall c :: c in after.log[|before.log|].receivers <==> c in before.clients && p(c)
  }

  /** An event that names a team reaches every connected client of the team, and no other, at once. */
  lemma {:induction false} TeamEventsAreDelivered(steps: seq<Step>, truth: Resource -> string,
                                                  dispatch: nat, e: Event, team: string)
    requires e.teamId == Some(team) && team != ""
    ensures var s := After(steps, truth);
            dispatch !in s.flights && s.clients != [] ==>
              DeliversTo(s, After(steps + [Begin(dispatch, e)], truth), (c: Client) => team in c.teams)
  {
    hide After, Receivers, Key;
    OneMore(steps, Begin(dispatch, e), truth);
  }

  /** An event of the platform that names no team reaches every connected client at once. */
  lemma {:induction false} PlatformEventsAreDelivered(steps: seq<Step>, truth: Resource -> string,
                                                      dispatch: nat, e: Event)
    requires e.subject.Platform? && (e.teamId == None || e.teamId == Some(""))
    ensures var s := After(steps, truth);
            dispatch !in s.flights && s.clients != [] ==>
              DeliversTo(s, After(steps + [Begin(dispatch, e)], truth), (c: Client) => true)
  {
    hide After, Receivers, Key;
    OneMore(steps, Begin(dispatch, e), truth);
  }

  /** An event that is only about a resource starts its own lookup, or finds the true owner in the cache. */
  lemma {:induction false} ResourceEventsAreLookedUp(
      steps: seq<Step>, truth: Resource -> string, dispatch: nat, e: Event, r: Resource)
    requires e == Event(About(r.kind), e.teamId, Some(r.id)) && r.id != "" && (e.teamId == None || e.teamId == Some(""))
    ensures var s, t := After(steps, truth), After(steps + [Begin(dispatch, e)], truth);
            dispatch !in s.flights && s.clients != [] ==>
              && dispatch in t.flights && t.flights[dispatch] in {Reading(r), Resolved(r, Some(truth(r)))}
              && t == s.(flights := s.flights[dispatch := t.flights[dispatch]], log := t.log)
  {
    hide After, Key, CacheIsRecent, GoodLog;
    OneMore(steps, Begin(dispatch, e), truth);
    RunsStayValid(steps, truth);
  }

  /** A lookup in flight finds the true owner if and only if the row exists when it is read, and passes it on. */
  lemma {:induction false} LookupsFindTheOwner(steps: seq<Step>, truth: Resource -> string, dispatch: nat)
    ensures var s := After(steps, truth);
            var read, finished := After(steps + [Read(dispatch)], truth), After(steps + [Finish(dispatch)], truth);
            dispatch in s.flights ==>
              var f := s.flights[dispatch];
              && (f.Reading? ==>
                    read == s.(flights := s.flights[dispatch :=
                      Answered(f.resource, if f.resource in s.rows then Some(truth(f.resource)) else None)]))
              && (f.Answered? ==>
                    dispatch in finished.flights && finished.flights[dispatch] == Resolved(f.resource, f.team))
  {
    hide After, Key, CacheIsRecent, GoodLog;
    OneMore(steps, Read(dispatch), truth);
    OneMore(steps, Finish(dispatch), truth);
    RunsStayValid(steps, truth);
  }

  /** Nothing else interferes with a dispatch in flight. */
  lemma {:induction false} FlightsAreIndependent(steps: seq<Step>, truth: Resource -> string, dispatch: nat, step: Step)
    requires step !in {Read(dispatch), Fail(dispatch), Finish(dispatch), Deliver(dispatch)}
    ensures var s, t := After(steps, truth), After(steps + [step], truth);
            dispatch in s.flights ==> dispatch in t.flights && t.flights[dispatch] == s.flights[dispatch]
  {
    hide After, Key, Filter, WithTeams, RouteEvent, CacheHit, Lookup;
    OneMore(steps, step, truth);
  }

  /**
   * The way of an event about a resource that exists: through the cache or the database, it reaches every connected
   * client of the owning team, and no other.
   */
  lemma {:induction false} OwnedEventsAreDelivered(
      steps: seq<Step>, truth: Resource -> string, dispatch: nat, e: Event, r: Resource)
    requires e == Event(About(r.kind), e.teamId, Some(r.id)) && r.id != "" && (e.teamId == None || e.teamId == Some(""))
    ensures var s := After(steps, truth);
            var way := [Begin(dispatch, e), Read(dispatch), Finish(dispatch)];
            dispatch !in s.flights && s.clients != [] && r in s.rows ==>
              DeliversTo(After(steps + way, truth), After(steps + way + [Deliver(dispatch)], truth),
                         (c: Client) => c in s.clients && truth(r) in c.teams)
              && After(steps + way, truth).clients == s.clients
  {
    hide After, Key, RouteEvent, CacheHit, Receivers, Lookup, Cached, DeliversTo;
    var s := After(steps, truth);
    var s1 := steps + [Begin(dispatch, e)];
    var s2 := s1 + [Read(dispatch)];
    var s3 := s2 + [Finish(dispatch)];
    assert s3 == steps + [Begin(dispatch, e), Read(dispatch), Finish(dispatch)];
    if dispatch !in s.flights && s.clients != [] && r in s.rows {
      ResourceEventsAreLookedUp(steps, truth, dispatch, e, r);
      LookupsFindTheOwner(s1, truth, dispatch);
      LookupsFindTheOwner(s2, truth, dispatch);
      OneMore(s1, Read(dispatch), truth);
      OneMore(s2, Finish(dispatch), truth);
      OnlyFlightsMove(After(s1, truth), dispatch);
      OnlyFlightsMove(After(s2, truth), dispatch);
      KnownOwnersAreServed(s3, truth, dispatch, r);
      DeliversAlike(After(s3, truth), After(s3 + [Deliver(dispatch)], truth), r, truth);
    }
  }

  lemma {:induction false} OnlyFlightsMove(s: State, dispatch: nat)
    ensures ReadDone(s, dispatch).clients == s.clients && ReadDone(s, dispatch).rows == s.rows
    ensures Finished(s, dispatch).clients == s.clients
    ensures dispatch in s.flights && s.flights[dispatch].Resolved? ==>
              ReadDone(s, dispatch) == s && Finished(s, dispatch) == s
  {
  }

  lemma {:induction false} KnownOwnersAreServed(steps: seq<Step>, truth: Resource -> string, dispatch: nat, r: Resource)
    ensures var s := After(steps, truth);
            dispatch in s.flights && s.flights[dispatch] == Resolved(r, Some(truth(r))) ==>
              DeliversTo(s, After(steps + [Deliver(dispatch)], truth), (c: Client) => truth(r) in c.teams)
  {
    hide After, Key, Receivers;
    OneMore(steps, Deliver(dispatch), truth);
  }

  lemma {:induction false} DeliversAlike(s: State, t: State, r: Resource, truth: Resource -> string)
    requires DeliversTo(s, t, (c: Client) => truth(r) in c.teams)
    ensures DeliversTo(s, t, (c: Client) => c in s.clients && truth(r) in c.teams)
  {
  }

  /** Without an owner nobody receives. */
  lemma {:induction false} UnownedEventsReachNobody(steps: seq<Step>, truth: Resource -> string, dispatch: nat)
    ensures var s := After(steps, truth);
            dispatch in s.flights && s.flights[dispatch].Resolved? && s.flights[dispatch].owner.None? ==>
              DeliversTo(s, After(steps + [Deliver(dispatch)], truth), (c: Client) => false)
  {
    hide After, Key, Receivers;
    OneMore(steps, Deliver(dispatch), truth);
  }

  // ---------------------------------------------------------------- who is connected

  ghost predicate IsConnected(s: State, id: nat) {
    exists c :: c in s.clients && c.id == id
  }

  /** The clients are exactly those that connected and have not left since, each once. */
  lemma {:induction false} ClientsAreTheConnected(steps: seq<Step>, truth: Resource -> string, id: nat)
    ensures IsConnected(After(steps, truth), id) <==>
            exists i :: 0 <= i < |steps| && steps[i].Open? && steps[i].id == id
                        && forall j :: i < j < |steps| ==> steps[j] != Close(id)
    decreases |steps|
  {
    if steps != [] {
      var n := |steps| - 1;
      var front, step := steps[..n], steps[n];
      hide After, IsConnected;
      ClientsAreTheConnected(front, truth, id);
      assert steps == front + [step];
      OneMore(front, step, truth);
      StepConnects(After(front, truth), step, truth, id);
      if i :| 0 <= i < n && front[i].Open? && front[i].id == id && forall j :: i < j < n ==> front[j] != Close(id) {
        if step != Close(id) {
          assert steps[i] == front[i] && forall j :: i < j < |steps| ==> steps[j] != Close(id);
        }
      }
      if i :| 0 <= i < |steps| && steps[i].Open? && steps[i].id == id
              && forall j :: i < j < |steps| ==> steps[j] != Close(id)
      {
        if i < n {
          assert front[i] == steps[i] && forall j :: i < j < n ==> front[j] != Close(id);
          assert steps[n] != Close(id);
        }
      } else {
        assert steps[n] == step;
      }
    } else {
      assert After(steps, truth) == START;
    }
  }

  lemma {:induction false} StepConnects(s: State, step: Step, truth: Resource -> string, id: nat)
    ensures IsConnected(Next(s, step, truth), id) <==>
            (step.Open? && step.id == id) || (IsConnected(s, id) && step != Close(id))
  {
    hide Begun, ReadDone, Finished, Sent;
    match step
    case Begin(d, e) => OnlyFlights(s, d, e);
    case Read(d) => OnlyFlights(s, d, Event(Unknown, None, None));
    case Finish(d) => OnlyFlights(s, d, Event(Unknown, None, None));
    case Deliver(d) => OnlyFlights(s, d, Event(Unknown, None, None));
    case Open(i, teams) => assert Client(i, teams) in s.clients + [Client(i, teams)];
    case Reload(i, teams) => ReloadedClients(s.clients, i, teams, id);
    case _ =>
  }

  lemma {:induction false} ReloadedClients(clients: seq<Client>, id: nat, teams: set<string>, other: nat)
    ensures var t := WithTeams(clients, id, teams);
            && ((exists c :: c in t && c.id == other) <==> exists c :: c in clients && c.id == other)
            && forall c :: c in t <==>
                 if c.id == id then c.teams == teams && exists d :: d in clients && d.id == id else c in clients
  {
    hide WithTeams;
    var t := WithTeams(clients, id, teams);
    forall k | 0 <= k < |t| ensures t[k] in t && clients[k] in clients && t[k].id == clients[k].id {
    }
    if c :| c in clients && c.id == other {
      var k :| 0 <= k < |clients| && clients[k] == c;
      assert t[k].id == other;
    }
    forall c ensures c in t <==>
                       if c.id == id then c.teams == teams && exists d :: d in clients && d.id == id else c in clients {
      if c in clients && c.id != id {
        var k :| 0 <= k < |clients| && clients[k] == c;
        assert t[k] == c;
      }
      if c.id == id && c.teams == teams && exists d :: d in clients && d.id == id {
        var d :| d in clients && d.id == id;
        var k :| 0 <= k < |clients| && clients[k] == d;
        assert t[k] == c;
      }
    }
  }

  lemma {:induction false} OnlyFlights(s: State, dispatch: nat, e: Event)
    ensures Begun(s, dispatch, e).clients == s.clients && ReadDone(s, dispatch).clients == s.clients
    ensures Finished(s, dispatch).clients == s.clients && Sent(s, dispatch).clients == s.clients
  {
    hide RouteEvent, CacheHit, Receivers, Key;
  }

  ghost predicate DistinctIds(clients: seq<Client>) {
    forall i, j :: 0 <= i < j < |clients| ==> clients[i].id != clients[j].id
  }

  lemma {:induction false} FilteredStayDistinct(clients: seq<Client>, p: Client -> bool)
    requires DistinctIds(clients)
    ensures DistinctIds(Filter(clients, p))
    decreases |clients|
  {
    hide Filter;
    if clients == [] {
      FilterNone(clients, p);
    } else {
      var c, rest := clients[0], clients[1..];
      FilteredStayDistinct(rest, p);
      FilterCons(c, rest, p);
      assert clients == [c] + rest;
      forall d | d in Filter(rest, p) ensures d.id != c.id {
        var j :| 0 <= j < |rest| && rest[j] == d;
        assert clients[j + 1] == d;
      }
      ConsIsDistinct(c, Filter(rest, p));
      assert [] + Filter(rest, p) == Filter(rest, p);
    }
  }

  lemma {:induction false} ConsIsDistinct(c: Client, rest: seq<Client>)
    requires DistinctIds(rest) && forall d :: d in rest ==> d.id != c.id
    ensures DistinctIds([c] + rest)
  {
  }

  lemma {:induction false} StepKeepsDistinct(s: State, step: Step, truth: Resource -> string)
    requires DistinctIds(s.clients)
    ensures DistinctIds(Next(s, step, truth).clients)
  {
    hide Begun, ReadDone, Finished, Sent, Filter, WithTeams;
    match step
    case Begin(d, e) => OnlyFlights(s, d, e);
    case Read(d) => OnlyFlights(s, d, Event(Unknown, None, None));
    case Finish(d) => OnlyFlights(s, d, Event(Unknown, None, None));
    case Deliver(d) => OnlyFlights(s, d, Event(Unknown, None, None));
    case Close(id) => FilteredStayDistinct(s.clients, (c: Client) => c.id != id);
    case Open(id, teams) => assert forall i :: 0 <= i < |s.clients| ==> s.clients[i] in s.clients;
    case _ =>
  }

  lemma {:induction false} ClientsStayDistinct(steps: seq<Step>, truth: Resource -> string)
    ensures DistinctIds(After(steps, truth).clients)
    decreases |steps|
  {
    hide Next, DistinctIds;
    if steps != [] {
      ClientsStayDistinct(steps[..|steps| - 1], truth);
      StepKeepsDistinct(After(steps[..|steps| - 1], truth), steps[|steps| - 1], truth);
    } else {
      NobodyIsDistinct();
    }
  }

  lemma {:induction false} NobodyIsDistinct()
    ensures DistinctIds([])
  {
  }

  /** No client gets an event twice. */
  lemma {:induction false} NobodyReceivesTwice(steps: seq<Step>, truth: Resource -> string,
                                               route: Route, owner: Option<string>)
    ensures var r := Receivers(After(steps, truth).clients, route, owner);
            forall i, j :: 0 <= i < j < |r| ==> r[i].id != r[j].id
  {
    hide After;
    ClientsStayDistinct(steps, truth);
    FilteredStayDistinct(After(steps, truth).clients, Admits(route, owner));
    assert DistinctIds(Receivers(After(steps, truth).clients, route, owner));
  }

  /** A client has the teams it connected with until a sweep reloads them. */
  lemma {:induction false} TeamsAreLoaded(steps: seq<Step>, truth: Resource -> string,
                                          id: nat, teams: set<string>, c: Client)
    ensures var s := After(steps, truth);
            && (!IsConnected(s, id) ==> Client(id, teams) in After(steps + [Open(id, teams)], truth).clients)
            && (s.refreshing ==>
                  (c in After(steps + [Reload(id, teams)], truth).clients <==>
                   if c.id == id then IsConnected(s, id) && c.teams == teams else c in s.clients))
  {
    hide After, Filter, Valid, WithTeams;
    var s := After(steps, truth);
    OneMore(steps, Open(id, teams), truth);
    OneMore(steps, Reload(id, teams), truth);
    RunsStayValid(steps, truth);
    OneSweep(s, truth);
    ReloadedClients(s.clients, id, teams, id);
  }

  /** A sweep can begin when none runs, and is over when it ends. */
  lemma {:induction false} SweepsBeginAndEnd(steps: seq<Step>, truth: Resource -> string)
    ensures After(steps + [BeginSweep], truth).refreshing && !After(steps + [EndSweep], truth).refreshing
  {
    hide After, Valid;
    OneMore(steps, BeginSweep, truth);
    OneMore(steps, EndSweep, truth);
    RunsStayValid(steps, truth);
    OneSweep(After(steps, truth), truth);
  }

  // ---------------------------------------------------------------- what the cache saves

  /**
   * An owner that was looked up answers the next event about the resource without a lookup for five minutes, and not
   * longer; up to 5000 entries, storing it costs no other entry.
   */
  lemma {:induction false} LookupsAreSavedForFiveMinutes(
      s: State, truth: Resource -> string, dispatch: nat, other: nat, e: Event, r: Resource, team: string, ms: int)
    requires dispatch in s.flights && s.flights[dispatch] == Answered(r, Some(team)) && team != ""
    requires other !in s.flights && s.clients != []
    requires e == Event(About(r.kind), None, Some(r.id)) && r.id != ""
    ensures var t := Next(s, Finish(dispatch), truth);
            var u := Next(Next(t, Tick(ms), truth), Begin(other, e), truth);
            && other in u.flights && u.flights[other] == (if ms < 300000 then Resolved(r, Some(team)) else Reading(r))
            && (|s.cache| < 5000 ==>
                  forall k :: k in s.cache && k != Key(r) ==> k in t.cache && t.cache[k] == s.cache[k])
  {
    hide Key;
  }

  /** What has no owner is not cached. */
  lemma {:induction false} MissesAreNotCached(s: State, truth: Resource -> string, dispatch: nat)
    requires dispatch in s.flights && s.flights[dispatch].Answered? && s.flights[dispatch].team in {None, Some("")}
    ensures Next(s, Finish(dispatch), truth).cache == s.cache
  {
    assert s.flights[dispatch].team.None? || s.flights[dispatch].team.value == "";
  }

  // ---------------------------------------------------------------- the service

  class Service {
    var cache: map<string, CacheEntry>
    var clients: seq<Client>
    var refreshing: bool
    ghost var rows: map<Resource, string>
    ghost var clock: int
    ghost var flights: map<nat, Flight>
    ghost var sweeps: nat
    ghost var log: seq<Entry>

    ghost function Value(): State
      reads this
    {
      State(cache, clients, refreshing, rows, clock, flights, sweeps, log)
    }

    constructor ()
      ensures Value() == START
    {
      cache, clients, refreshing := map[], [], false;
      rows, clock, flights, sweeps, log := map[], 0, map[], 0, [];
    }

    /** Sends the event to every client that may receive it; in this model, its entry in the log. */
    method Broadcast(route: Route, owner: Option<string>) returns (sent: seq<Client>)
      modifies this`log
      ensures sent == Receivers(clients, route, owner)
      ensures Value() == Send(old(Value()), route, owner)
    {
      sent := [];
      for i := 0 to |clients|
        invariant sent == Receivers(clients[..i], route, owner)
        invariant Value() == old(Value())
      {
        ReceiversAppend(clients, i, route, owner);
        if CanReceive(route, owner, clients[i].teams) { sent := sent + [clients[i]]; }
      }
      assert clients[..|clients|] == clients;
      log := log + [Delivered(route, owner, sent)];
    }

    /** `dispatch` and, inside it, `ownerOf` up to the database read; `now` is the clock. */
    method Dispatch(dispatch: nat, event: Event, now: int)
      requires now == clock && dispatch !in flights
      modifies this`log, this`flights
      ensures Value() == Begun(old(Value()), dispatch, event)
    {
      var route := RouteEvent(event);
      if route.None? || |clients| == 0 { return; }
      if !route.value.ToOwner? {
        var sent := Broadcast(route.value, None);
        return;
      }
      var key := Key(route.value.resource);
      if key in cache && cache[key].expires > now {
        log := log + [Hit(key, cache[key].teamId, now)];
        flights := flights[dispatch := Resolved(route.value.resource, Some(cache[key].teamId))];
        return;
      }
      flights := flights[dispatch := Reading(route.value.resource)];
    }

    /** `ownerOf` from the database's answer on. */
    method OwnerRead(dispatch: nat, resource: Resource, teamId: Option<string>, now: int)
      returns (owner: Option<string>)
      requires now == clock && dispatch in flights && flights[dispatch] == Answered(resource, teamId)
      modifies this`cache, this`log, this`flights
      ensures owner == teamId
      ensures Value() == Finished(old(Value()), dispatch)
    {
      if teamId.Some? && teamId.value != "" {
        if |cache| >= OWNER_CACHE_MAX { cache := map[]; }
        cache := cache[Key(resource) := CacheEntry(teamId.value, now + OWNER_TTL_MS)];
        log := log + [Stored(Key(resource), teamId.value, now)];
      }
      owner := teamId;
      flights := flights[dispatch := Resolved(resource, owner)];
    }

    /** `dispatch` from the owner on. */
    method Delivery(dispatch: nat, resource: Resource, owner: Option<string>)
      requires dispatch in flights && flights[dispatch] == Resolved(resource, owner)
      modifies this`log, this`flights
      ensures Value() == Sent(old(Value()), dispatch)
    {
      flights := flights - {dispatch};
      var sent := Broadcast(ToOwner(resource), owner);
    }

    /** `refreshClients` up to its first await; `started` says whether a sweep begins. */
    method RefreshClients(truth: Resource -> string) returns (started: bool)
      modifies this`refreshing, this`sweeps
      ensures started == !old(refreshing)
      ensures Value() == Next(old(Value()), BeginSweep, truth)
    {
      if refreshing { return false; }
      refreshing := true;
      sweeps := sweeps + 1;
      started := true;
    }

    /** The `finally` of a sweep. */
    method SweepEnds(truth: Resource -> string)
      requires sweeps > 0
      modifies this`refreshing, this`sweeps
      ensures Value() == Next(old(Value()), EndSweep, truth)
    {
      refreshing := false;
      sweeps := sweeps - 1;
    }
  }

  lemma {:induction false} ReceiversAppend(clients: seq<Client>, i: nat, route: Route, owner: Option<string>)
    requires i < |clients|
    ensures Receivers(clients[..i + 1], route, owner)
         == Receivers(clients[..i], route, owner)
            + if CanReceive(route, owner, clients[i].teams) then [clients[i]] else []
  {
    hide CanReceive;
    assert clients[..i + 1] == clients[..i] + [clients[i]];
    FilterAppend(clients[..i], clients[i], Admits(route, owner));
  }
}
