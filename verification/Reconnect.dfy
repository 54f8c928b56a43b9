/**
 * The browser's WebSocket client (apps/web/src/lib/ws.ts): one shared socket, kept open by capped backoff for as
 * long as something listens. The callbacks of sockets and timers are the steps of a state machine.
 */
module Reconnect {
  import opened Wrappers
  import opened Radix

  type Listener = nat

  const FIRST_DELAY := 1000
  const MAX_DELAY := 30000

  /**
   * The client's fields, and around them what the browser holds: the sockets whose close event is still to come,
   * the timers still to fire, the next unused handle and how long each timer was set to wait.
   */
  datatype Client = Client(
    socket: Option<nat>, listeners: set<Listener>, retryDelay: nat, retryTimer: Option<nat>,
    live: set<nat>, timers: set<nat>, nextId: nat, waits: seq<nat>)

  datatype Event =
    | On(listener: Listener)
    | Off(listener: Listener)
    | SocketOpened(id: nat)
    | SocketClosed(id: nat)
    | TimerFired(id: nat)

  const START := Client(None, {}, FIRST_DELAY, None, {}, {}, 0, [])

  function Connected(c: Client): Client {
    if c.socket.Some? then c
    else c.(socket := Some(c.nextId), live := c.live + {c.nextId}, nextId := c.nextId + 1)
  }

  /** One step. The browser delivers events only to sockets that have not closed and for timers that are pending. */
  function Next(c: Client, e: Event): Client {
    match e
    case On(l) => Connected(c).(listeners := c.listeners + {l})
    case Off(l) => c.(listeners := c.listeners - {l})
    case SocketOpened(id) => if id in c.live then c.(retryDelay := FIRST_DELAY) else c
    case SocketClosed(id) =>
      if id !in c.live then c
      else
        var d := c.(live := c.live - {id}, socket := if c.socket == Some(id) then None else c.socket);
        if c.listeners == {} || c.retryTimer.Some? then d
        else d.(retryTimer := Some(c.nextId), timers := c.timers + {c.nextId}, nextId := c.nextId + 1,
                waits := c.waits + [c.retryDelay], retryDelay := Min(c.retryDelay * 2, MAX_DELAY))
    case TimerFired(id) =>
      if id !in c.timers then c
      else
        var d := c.(timers := c.timers - {id}, retryTimer := None);
        if c.listeners != {} then Connected(d) else d
  }

  // ---------------------------------------------------------------- the invariant

  function Handle(h: Option<nat>): set<nat> {
    if h.Some? then {h.value} else {}
  }

  ghost predicate Valid(c: Client) {
    && c.live == Handle(c.socket) && c.timers == Handle(c.retryTimer)
    && (c.socket.Some? ==> c.socket.value < c.nextId) && (c.retryTimer.Some? ==> c.retryTimer.value < c.nextId)
    && (c.listeners != {} ==> c.socket.Some? || c.retryTimer.Some?)
  }

  lemma {:induction false} OneHandle(n: nat)
    ensures {} + {n} == {n} && {n} - {n} == {}
  {
  }

  /** Every callback keeps the invariant. */
  lemma {:induction false} StepKeepsValid(c: Client, e: Event)
    requires Valid(c)
    ensures Valid(Next(c, e))
  {
    match e
    case SocketClosed(id) =>
      OneHandle(id);
      OneHandle(c.nextId);
    case TimerFired(id) =>
      OneHandle(id);
      OneHandle(c.nextId);
    case _ => OneHandle(c.nextId);
  }

  lemma {:induction false} StartIsValid()
    ensures Valid(START)
  {
  }

  // ---------------------------------------------------------------- whole runs

  function After(events: seq<Event>): Client
    decreases |events|
  {
    if events == [] then START else Next(After(events[..|events| - 1]), events[|events| - 1])
  }

  lemma {:induction false} RunsStayValid(events: seq<Event>)
    ensures Valid(After(events))
    decreases |events|
  {
    hide Valid, Next;
    if events == [] {
      StartIsValid();
    } else {
      RunsStayValid(events[..|events| - 1]);
      StepKeepsValid(After(events[..|events| - 1]), events[|events| - 1]);
    }
  }

  /**
   * In every reachable state at most one socket is open and at most one retry is pending, the client knows both,
   * and a registered listener has a socket or a retry to come.
   */
  lemma {:induction false} OneSocketOneTimer(events: seq<Event>)
    ensures var c := After(events);
            && |c.live| <= 1 && |c.timers| <= 1
            && (forall id :: id in c.live <==> c.socket == Some(id))
            && (forall id :: id in c.timers <==> c.retryTimer == Some(id))
            && (c.listeners != {} ==> c.live != {} || c.timers != {})
  {
    hide After;
    RunsStayValid(events);
  }

  /** Whether a listener was registered and not taken away since. */
  ghost predicate Subscribed(events: seq<Event>, l: Listener) {
    exists i :: 0 <= i < |events| && events[i] == On(l) && forall j :: i < j < |events| ==> events[j] != Off(l)
  }

  /** The listeners are exactly those subscribed and not unsubscribed since, whatever sockets and timers did. */
  lemma {:induction false} ListenersAreSubscribed(events: seq<Event>, l: Listener)
    ensures l in After(events).listeners <==> Subscribed(events, l)
    decreases |events|
  {
    if events != [] {
      var n := |events| - 1;
      var front, e := events[..n], events[n];
      ListenersAreSubscribed(front, l);
      assert l in Next(After(front), e).listeners <==> e == On(l) || (l in After(front).listeners && e != Off(l));
      if Subscribed(front, l) && e != Off(l) {
        var i :| 0 <= i < n && front[i] == On(l) && forall j :: i < j < n ==> front[j] != Off(l);
        assert events[i] == On(l) && forall j :: i < j < |events| ==> events[j] != Off(l);
      }
      if i :| 0 <= i < |events| && events[i] == On(l) && forall j :: i < j < |events| ==> events[j] != Off(l) {
        if i < n {
          assert front[i] == On(l) && forall j :: i < j < n ==> front[j] != Off(l);
        }
      } else {
        assert events[n] == e;
      }
    }
  }

  lemma {:induction false} OneMore(events: seq<Event>, e: Event)
    ensures After(events + [e]) == Next(After(events), e)
  {
    assert (events + [e])[..|events|] == events;
  }

  /** Subscribing opens a socket unless there is one. */
  lemma {:induction false} SubscribingConnects(events: seq<Event>, l: Listener)
    ensures |After(events + [On(l)]).live| == 1
  {
    hide After;
    OneMore(events, On(l));
    RunsStayValid(events);
    OneHandle(After(events).nextId);
  }

  /** While someone is subscribed and no socket is left, one retry is pending, and its firing opens a new socket. */
  lemma {:induction false} SubscribersReconnect(events: seq<Event>, l: Listener)
    ensures var c := After(events);
            Subscribed(events, l) && c.live == {} ==>
              exists t :: c.timers == {t}
                          && var d := After(events + [TimerFired(t)]);
                             |d.live| == 1 && d.timers == {} && c.live !! d.live
  {
    hide After, Subscribed;
    var c := After(events);
    ListenersAreSubscribed(events, l);
    RunsStayValid(events);
    if l in c.listeners && c.live == {} {
      var t := c.retryTimer.value;
      OneMore(events, TimerFired(t));
      OneHandle(t);
      OneHandle(c.nextId);
      assert c.timers == {t};
    }
  }

  /** A closed socket and a fired timer are gone, and nothing else of their kind is. */
  lemma {:induction false} EventsAreConsumed(events: seq<Event>, id: nat)
    ensures After(events + [SocketClosed(id)]).live == After(events).live - {id}
    ensures After(events + [TimerFired(id)]).timers == After(events).timers - {id}
  {
    hide After;
    OneMore(events, SocketClosed(id));
    OneMore(events, TimerFired(id));
  }

  /** How many retries were scheduled since a socket last opened. */
  function RetriesSinceOpen(events: seq<Event>): nat
    decreases |events|
  {
    if events == [] then 0
    else
      var n := |events| - 1;
      var before, e := After(events[..n]), events[n];
      if e.SocketOpened? && e.id in before.live then 0
      else RetriesSinceOpen(events[..n]) + if After(events).waits != before.waits then 1 else 0
  }

  function Backoff(k: nat): nat {
    Min(1000 * Pow(2, k), 30000)
  }

  lemma {:induction false} BackoffDoubles(k: nat)
    ensures Backoff(0) == 1000
    ensures Backoff(k + 1) == Min(Backoff(k) * 2, 30000)
  {
    assert Pow(2, 0) == 1;
    assert Pow(2, k + 1) == Pow(2, k) * 2;
  }

  lemma {:induction false} DelayFollows(events: seq<Event>)
    ensures After(events).retryDelay == Backoff(RetriesSinceOpen(events))
    decreases |events|
  {
    hide Backoff;
    BackoffDoubles(0);
    if events != [] {
      var front := events[..|events| - 1];
      DelayFollows(front);
      BackoffDoubles(RetriesSinceOpen(front));
    }
  }

  /**
   * A retry is scheduled exactly when a socket closes, someone listens and no retry is pending; the k-th one since
   * a socket last opened waits min(1000 * 2^k, 30000) milliseconds.
   */
  lemma {:induction false} RetriesBackOff(events: seq<Event>, e: Event)
    ensures var before, after := After(events), After(events + [e]);
            if e.SocketClosed? && e.id in before.live && before.listeners != {} && before.timers == {} then
              after.waits == before.waits + [Min(1000 * Pow(2, RetriesSinceOpen(events)), 30000)] && |after.timers| == 1
            else
              after.waits == before.waits && after.timers <= before.timers
  {
    hide After, RetriesSinceOpen, Pow;
    OneMore(events, e);
    DelayFollows(events);
    RunsStayValid(events);
    OneHandle(After(events).nextId);
  }

  /** From any reachable state with a listener and no socket, the pending retry opens a new one. */
  lemma {:induction false} RetryReconnects(events: seq<Event>)
    ensures var c := After(events);
            c.listeners != {} && c.socket.None? ==>
              c.retryTimer.Some?
              && var d := Next(c, TimerFired(c.retryTimer.value));
                 d.socket.Some? && d.live == {d.socket.value} && d.socket.value !in c.live && d.timers == {}
  {
    hide After;
    RunsStayValid(events);
  }

  function Continued(c: Client, events: seq<Event>): Client
    decreases |events|
  {
    if events == [] then c else Next(Continued(c, events[..|events| - 1]), events[|events| - 1])
  }

  /** Once nobody listens and nobody subscribes, no socket is opened and no retry is scheduled again. */
  lemma {:induction false} SilentWithoutListeners(c: Client, events: seq<Event>)
    requires c.listeners == {} && forall i :: 0 <= i < |events| ==> !events[i].On?
    ensures var d := Continued(c, events);
            d.listeners == {} && d.live <= c.live && d.timers <= c.timers && d.nextId == c.nextId
    decreases |events|
  {
    if events != [] {
      SilentWithoutListeners(c, events[..|events| - 1]);
    }
  }

  // ---------------------------------------------------------------- the class

  class WsClient {
    var socket: Option<nat>
    var listeners: set<Listener>
    var retryDelay: nat
    var retryTimer: Option<nat>
    var nextId: nat
    ghost var live: set<nat>
    ghost var timers: set<nat>
    ghost var waits: seq<nat>

    ghost function State(): Client
      reads this
    {
      Client(socket, listeners, retryDelay, retryTimer, live, timers, nextId, waits)
    }

    constructor ()
      ensures State() == START && Valid(State())
    {
      socket, listeners, retryDelay, retryTimer := None, {}, FIRST_DELAY, None;
      nextId, live, timers, waits := 0, {}, {}, [];
      new;
      StartIsValid();
    }

    method Connect()
      modifies this
      ensures State() == Connected(old(State()))
    {
      if socket.Some? { return; }
      var created := nextId;
      nextId := nextId + 1;
      live := live + {created};
      socket := Some(created);
    }

    method Subscribe(listener: Listener)
      requires Valid(State())
      modifies this
      ensures State() == Next(old(State()), On(listener)) && Valid(State())
    {
      StepKeepsValid(State(), On(listener));
      Connect();
      listeners := listeners + {listener};
    }

    method Unsubscribe(listener: Listener)
      requires Valid(State())
      modifies this
      ensures State() == Next(old(State()), Off(listener)) && Valid(State())
    {
      StepKeepsValid(State(), Off(listener));
      listeners := listeners - {listener};
    }

    method OnOpen(id: nat)
      requires Valid(State()) && id in live
      modifies this
      ensures State() == Next(old(State()), SocketOpened(id)) && Valid(State())
    {
      StepKeepsValid(State(), SocketOpened(id));
      retryDelay := FIRST_DELAY;
    }

    method OnClose(id: nat)
      requires Valid(State()) && id in live
      modifies this
      ensures State() == Next(old(State()), SocketClosed(id)) && Valid(State())
    {
      StepKeepsValid(State(), SocketClosed(id));
      live := live - {id};
      if socket == Some(id) { socket := None; }
      if |listeners| == 0 || retryTimer.Some? { return; }
      retryTimer := Some(nextId);
      timers := timers + {nextId};
      nextId := nextId + 1;
      waits := waits + [retryDelay];
      retryDelay := Min(retryDelay * 2, MAX_DELAY);
    }

    method OnTimer(id: nat)
      requires Valid(State()) && id in timers
      modifies this
      ensures State() == Next(old(State()), TimerFired(id)) && Valid(State())
    {
      StepKeepsValid(State(), TimerFired(id));
      timers := timers - {id};
      retryTimer := None;
      if |listeners| > 0 { Connect(); }
    }
  }
}
