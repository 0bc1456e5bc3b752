/**
  The server's connections and the timer wheel that closes the idle ones, as a state machine.
  A connection's wrapper is owned by nothing but the wheel, so the wheel is one of connection numbers.
 */
module TcpServerModel {
  import opened Options
  import opened TimerWheel

  /** Which callbacks of a connection are set, and whether its handle is closing. */
  datatype Connection = Connection(id: nat, onMessage: bool, onClose: bool, onComplete: bool, closing: bool)

  datatype Server = Server(connections: map<string, Connection>, wheel: Wheel<nat>, next: nat)

  /** `Message` comes with the connections that the user's callback closes; `Failed` is a socket closed by
      its peer or broken; `Completed` is the end of closing a handle. */
  datatype Event =
    | Accept(name: string)
    | Message(name: string, closes: seq<string>)
    | Timer
    | Close(name: string)
    | Failed(name: string)
    | Completed(name: string)

  datatype What = Accepted(id: nat) | Called(id: nat) | Ticked | Nothing

  /** What one event led to: the connections whose close began, and those that were dropped. */
  datatype Seen = Seen(what: What, closing: set<nat>, gone: set<nat>)

  function Silenced(c: Connection): Connection { Connection(c.id, false, false, true, true) }

  /** Closing begins; if it had begun before, it is taken as complete at once. */
  function CloseConnection(s: Server, name: string): (Server, set<nat>, set<nat>) {
    if name !in s.connections then (s, {}, {})
    else
      var c := s.connections[name];
      if c.closing then (s.(connections := s.connections - {name}), {}, {c.id})
      else (s.(connections := s.connections[name := Silenced(c)]), {c.id}, {})
  }

  /** The connection is reported closed; that counts only until its close has begun. */
  function SocketClosed(s: Server, name: string): (Server, set<nat>, set<nat>) {
    if name in s.connections && s.connections[name].onClose then CloseConnection(s, name) else (s, {}, {})
  }

  function CloseAll(s: Server, names: seq<string>): (Server, set<nat>, set<nat>)
    decreases |names|
  {
    if names == [] then (s, {}, {})
    else
      var (s1, closing, gone) := CloseConnection(s, names[0]);
      var (s2, more, others) := CloseAll(s1, names[1..]);
      (s2, closing + more, gone + others)
  }

  /** The connections a tick starts to close: their wrapper is let go, and its destructor reports them closed. */
  function Expired(s: Server, released: set<nat>): set<string> {
    set n | n in s.connections && s.connections[n].id in released && s.connections[n].onClose
  }

  function IdsOf(s: Server, names: set<string>): set<nat> { set n | n in s.connections && n in names :: s.connections[n].id }

  function CloseExpired(s: Server, names: set<string>): Server {
    s.(connections := map n | n in s.connections :: if n in names then Silenced(s.connections[n]) else s.connections[n])
  }

  /** Expiry is the same whatever the order in which wrappers are destroyed: one more of them. */
  lemma ExpireOneMore(s: Server, done: set<nat>, id: nat, name: string)
    requires Tidy(s) && name in s.connections && s.connections[name].id == id && id !in done
    ensures var (after, closing, gone) := SocketClosed(CloseExpired(s, Expired(s, done)), name);
      && after == CloseExpired(s, Expired(s, done + {id})) && gone == {}
      && IdsOf(s, Expired(s, done + {id})) == IdsOf(s, Expired(s, done)) + closing
  {
    var before, more := CloseExpired(s, Expired(s, done)), Expired(s, done + {id});
    if s.connections[name].onClose {
      assert more == Expired(s, done) + {name};
      assert CloseConnection(before, name).0.connections == CloseExpired(s, more).connections;
    } else {
      assert more == Expired(s, done);
    }
  }

  lemma ExpireNoMore(s: Server, done: set<nat>, id: nat)
    requires forall n :: n in s.connections ==> s.connections[n].id != id
    ensures Expired(s, done + {id}) == Expired(s, done)
  {
  }

  lemma ExpiryIsTidy(s: Server, names: set<string>)
    requires Tidy(s)
    ensures Tidy(CloseExpired(s, names)) && CloseExpired(s, names).connections.Keys == s.connections.Keys
    ensures forall n :: n in s.connections ==> CloseExpired(s, names).connections[n].id == s.connections[n].id
  {
  }

  lemma ExpireNone(s: Server)
    ensures Expired(s, {}) == {} && CloseExpired(s, {}) == s && IdsOf(s, {}) == {}
  {
    assert CloseExpired(s, {}).connections == s.connections;
  }

  /** A connection whose address is in the table already does not get in. */
  function Added(connections: map<string, Connection>, name: string, c: Connection): map<string, Connection> {
    if name in connections then connections else connections[name := c]
  }

  function Step(s: Server, timeout: nat, e: Event): (r: (Server, Seen))
    requires Turning(s.wheel, timeout)
    ensures Turning(r.0.wheel, timeout)
  {
    match e
    case Accept(name) =>
      (Server(Added(s.connections, name, Connection(s.next, true, true, false, false)), Put(s.wheel, timeout, s.next), s.next + 1),
       Seen(Accepted(s.next), {}, {}))
    case Message(name, closes) =>
      if name in s.connections && s.connections[name].onMessage then
        var id := s.connections[name].id;
        var (s1, closing, gone) := CloseAll(s, closes);
        CloseAllKeeps(s, closes);
        (if Holds(s.wheel, id) then s1.(wheel := Put(s1.wheel, timeout, id)) else s1, Seen(Called(id), closing, gone))
      else (s, Seen(Nothing, {}, {}))
    case Timer =>
      var names := Expired(s, Released(s.wheel, timeout));
      (CloseExpired(s, names).(wheel := Turned(s.wheel, timeout)), Seen(Ticked, IdsOf(s, names), {}))
    case Close(name) =>
      var (s1, closing, gone) := CloseConnection(s, name);
      (s1, Seen(Nothing, closing, gone))
    case Failed(name) =>
      var (s1, closing, gone) := SocketClosed(s, name);
      (s1, Seen(Nothing, closing, gone))
    case Completed(name) =>
      if name in s.connections && s.connections[name].closing && s.connections[name].onComplete then
        (s.(connections := s.connections - {name}), Seen(Nothing, {}, {s.connections[name].id}))
      else (s, Seen(Nothing, {}, {}))
  }

  lemma {:induction false} CloseAllKeeps(s: Server, names: seq<string>)
    ensures CloseAll(s, names).0.wheel == s.wheel && CloseAll(s, names).0.next == s.next
    decreases |names|
  {
    if names != [] { CloseAllKeeps(CloseConnection(s, names[0]).0, names[1..]); }
  }

  // ----- Runs -----

  function Run(timeout: nat, events: seq<Event>): (r: (Server, seq<Seen>))
    ensures Turning(r.0.wheel, timeout) && |r.1| == |events|
    decreases |events|
  {
    if events == [] then (Server(map[], New(timeout), 0), [])
    else
      var (s, trace) := Run(timeout, events[..|events| - 1]);
      var (s', seen) := Step(s, timeout, events[|events| - 1]);
      (s', trace + [seen])
  }

  /** The ticks, and the moments at which a connection was accepted or sent a message. */
  function Activity(trace: seq<Seen>): seq<WheelEvent<nat>>
    decreases |trace|
  {
    if trace == [] then []
    else Activity(trace[..|trace| - 1]) + Active(trace[|trace| - 1].what)
  }

  function Active(what: What): seq<WheelEvent<nat>> {
    match what
    case Accepted(id) => [Insert(id)]
    case Called(id) => [Insert(id)]
    case Ticked => [Tick]
    case Nothing => []
  }

  /** How many ticks ago a connection last sent a message, or was accepted. */
  function Silence(trace: seq<Seen>, id: nat): Option<nat> { Age(Activity(trace), id) }

  ghost predicate Open(s: Server, id: nat) { exists n :: n in s.connections && s.connections[n].id == id && !s.connections[n].closing }

  /** Numbers are given once; until closing begins both callbacks are set, and from then on neither is. */
  ghost predicate Tidy(s: Server) {
    && (forall n :: n in s.connections ==> s.connections[n].id < s.next)
    && (forall n, m :: n in s.connections && m in s.connections && n != m ==> s.connections[n].id != s.connections[m].id)
    && forall n :: n in s.connections ==>
         var c := s.connections[n]; c.onMessage == c.onClose == !c.closing && c.onComplete == c.closing
  }

  /** The connections not yet closing are fewer than `timeout` ticks silent. */
  ghost predicate NoneIdle(s: Server, timeout: nat, activity: seq<WheelEvent<nat>>) {
    forall n :: n in s.connections && !s.connections[n].closing ==>
      var a := Age(activity, s.connections[n].id); a.Some? && (timeout > 0 ==> a.value < timeout)
  }

  ghost predicate Sound(s: Server, timeout: nat, activity: seq<WheelEvent<nat>>) {
    Tidy(s) && s.wheel == After(timeout, activity) && NoneIdle(s, timeout, activity)
  }

  /** Closing opens nothing: the connections still open were open before, and none is renamed. */
  ghost predicate Shrunk(s: Server, s': Server) {
    && s'.wheel == s.wheel && s'.next == s.next
    && forall n :: n in s'.connections ==>
         n in s.connections && (s'.connections[n] == s.connections[n] || s'.connections[n] == Silenced(s.connections[n]))
  }

  lemma CloseConnectionShrinks(s: Server, name: string)
    requires Tidy(s)
    ensures Shrunk(s, CloseConnection(s, name).0) && Tidy(CloseConnection(s, name).0)
  {
  }

  lemma RemovalShrinks(s: Server, name: string)
    requires Tidy(s)
    ensures Shrunk(s, s.(connections := s.connections - {name})) && Tidy(s.(connections := s.connections - {name}))
  {
  }

  lemma SameIsShrunk(s: Server)
    ensures Shrunk(s, s)
  {
  }

  lemma {:induction false} CloseAllShrinks(s: Server, names: seq<string>)
    requires Tidy(s)
    ensures Shrunk(s, CloseAll(s, names).0) && Tidy(CloseAll(s, names).0)
    decreases |names|
  {
    if names != [] { CloseAllShrinks(CloseConnection(s, names[0]).0, names[1..]); }
  }

  // ----- What every event keeps -----

  lemma MoreActivity(timeout: nat, activity: seq<WheelEvent<nat>>, e: WheelEvent<nat>, id: nat)
    ensures After(timeout, activity + [e]) ==
            match e case Insert(v) => Put(After(timeout, activity), timeout, v) case Tick => Turned(After(timeout, activity), timeout)
    ensures Age(activity + [e], id) ==
            match e
            case Insert(v) => if v == id then Some(0) else Age(activity, id)
            case Tick => if Age(activity, id).Some? then Some(Age(activity, id).value + 1) else None
  {
    assert (activity + [e])[..|activity|] == activity;
  }

  lemma ShrunkIsSound(s: Server, s': Server, timeout: nat, activity: seq<WheelEvent<nat>>)
    requires Sound(s, timeout, activity) && Shrunk(s, s') && Tidy(s')
    ensures Sound(s', timeout, activity)
  {
    hide After, Age, Tidy;
  }

  lemma AcceptedIsSound(s: Server, timeout: nat, activity: seq<WheelEvent<nat>>, name: string)
    requires Sound(s, timeout, activity)
    ensures Sound(Step(s, timeout, Accept(name)).0, timeout, activity + [Insert(s.next)])
  {
    hide After, Age;
    var s' := Step(s, timeout, Accept(name)).0;
    MoreActivity(timeout, activity, Insert(s.next), s.next);
    forall n | n in s'.connections && !s'.connections[n].closing
      ensures var a := Age(activity + [Insert(s.next)], s'.connections[n].id); a.Some? && (timeout > 0 ==> a.value < timeout)
    {
      MoreActivity(timeout, activity, Insert(s.next), s'.connections[n].id);
    }
  }

  lemma MessageIsSound(s: Server, timeout: nat, activity: seq<WheelEvent<nat>>, name: string, closes: seq<string>)
    requires Sound(s, timeout, activity) && name in s.connections && s.connections[name].onMessage
    ensures Sound(Step(s, timeout, Message(name, closes)).0, timeout, activity + [Insert(s.connections[name].id)])
  {
    hide After, Age, Holds;
    var id, s1 := s.connections[name].id, CloseAll(s, closes).0;
    var s' := Step(s, timeout, Message(name, closes)).0;
    CloseAllShrinks(s, closes);
    HeldWhileRecent(timeout, activity, id);
    MoreActivity(timeout, activity, Insert(id), id);
    assert s'.wheel == After(timeout, activity + [Insert(id)]);
    forall n | n in s1.connections && !s1.connections[n].closing
      ensures var a := Age(activity + [Insert(id)], s1.connections[n].id); a.Some? && (timeout > 0 ==> a.value < timeout)
    {
      MoreActivity(timeout, activity, Insert(id), s1.connections[n].id);
    }
  }

  lemma TickIsSound(s: Server, timeout: nat, activity: seq<WheelEvent<nat>>)
    requires Sound(s, timeout, activity)
    ensures Sound(Step(s, timeout, Timer).0, timeout, activity + [Tick])
  {
    hide After, Age, Released, Turned;
    var names := Expired(s, Released(s.wheel, timeout));
    var s' := Step(s, timeout, Timer).0;
    MoreActivity(timeout, activity, Tick, 0);
    forall n | n in s'.connections && !s'.connections[n].closing
      ensures var a := Age(activity + [Tick], s'.connections[n].id); a.Some? && (timeout > 0 ==> a.value < timeout)
    {
      MoreActivity(timeout, activity, Tick, s.connections[n].id);
      if timeout > 0 { TickReleases(timeout, activity, s.connections[n].id); }
    }
  }

  lemma CloseShrinks(s: Server, timeout: nat, e: Event)
    requires Tidy(s) && Turning(s.wheel, timeout) && (e.Close? || e.Failed? || e.Completed?)
    ensures Shrunk(s, Step(s, timeout, e).0) && Tidy(Step(s, timeout, e).0) && Step(s, timeout, e).1.what == Nothing
  {
    hide Shrunk, Tidy, CloseConnection;
    CloseConnectionShrinks(s, e.name);
    RemovalShrinks(s, e.name);
    SameIsShrunk(s);
  }

  lemma CloseIsSound(s: Server, timeout: nat, activity: seq<WheelEvent<nat>>, e: Event)
    requires Sound(s, timeout, activity) && (e.Close? || e.Failed? || e.Completed?)
    ensures Sound(Step(s, timeout, e).0, timeout, activity + Active(Step(s, timeout, e).1.what))
  {
    hide After, NoneIdle, Tidy, Shrunk, Step;
    CloseShrinks(s, timeout, e);
    assert activity + [] == activity;
    ShrunkIsSound(s, Step(s, timeout, e).0, timeout, activity);
  }

  lemma StepIsSound(s: Server, timeout: nat, activity: seq<WheelEvent<nat>>, e: Event)
    requires Sound(s, timeout, activity)
    ensures Sound(Step(s, timeout, e).0, timeout, activity + Active(Step(s, timeout, e).1.what))
  {
    hide After, Sound, Expired, CloseExpired, CloseConnection, CloseAll;
    match e {
      case Accept(name) => AcceptedIsSound(s, timeout, activity, name);
      case Message(name, closes) =>
        if name in s.connections && s.connections[name].onMessage { MessageIsSound(s, timeout, activity, name, closes); }
        else { assert activity + [] == activity; }
      case Timer => TickIsSound(s, timeout, activity);
      case _ => CloseIsSound(s, timeout, activity, e);
    }
  }

  lemma {:induction false} RunIsSound(timeout: nat, events: seq<Event>)
    ensures Sound(Run(timeout, events).0, timeout, Activity(Run(timeout, events).1))
    decreases |events|
  {
    hide Step, Sound;
    if events == [] {
      NothingIsSound(timeout);
    } else {
      var (s, trace) := Run(timeout, events[..|events| - 1]);
      RunIsSound(timeout, events[..|events| - 1]);
      var seen := Step(s, timeout, events[|events| - 1]).1;
      StepIsSound(s, timeout, Activity(trace), events[|events| - 1]);
      assert (trace + [seen])[..|trace|] == trace;
    }
  }

  lemma NothingIsSound(timeout: nat)
    ensures Sound(Server(map[], New(timeout), 0), timeout, [])
  {
  }

  // ----- Heartbeat -----

  /**
    In every run, a tick starts to close exactly the connections that are not yet closing and have
    sent nothing for `timeout` ticks; without a timeout it closes none.
   */
  lemma TimerClosesExactlyTheSilent(timeout: nat, events: seq<Event>, id: nat)
    ensures var (s, trace) := Run(timeout, events);
      var (s', seen) := Step(s, timeout, Timer);
      && (id in seen.closing <==> timeout > 0 && Open(s, id) && Silence(trace + [seen], id) == Some(timeout))
      && (id in seen.closing ==> !Open(s', id))
  {
    hide Run, After, Age, Turned;
    var (s, trace) := Run(timeout, events);
    var activity, seen := Activity(trace), Step(s, timeout, Timer).1;
    RunIsSound(timeout, events);
    assert (trace + [seen])[..|trace|] == trace;
    if timeout > 0 { TickReleases(timeout, activity, id); }
  }

  /** A connection not yet closing sent something, or was accepted, fewer than `timeout` ticks ago. */
  lemma OpenIsRecent(timeout: nat, events: seq<Event>, id: nat)
    requires timeout > 0 && Open(Run(timeout, events).0, id)
    ensures Silence(Run(timeout, events).1, id).Some? && Silence(Run(timeout, events).1, id).value < timeout
  {
    hide Run, Age, After;
    RunIsSound(timeout, events);
  }

  /** What closes was open, and what is not open any more stays so. */
  lemma {:induction false} CloseAllClosesOpen(s: Server, names: seq<string>, id: nat)
    requires Tidy(s)
    ensures id in CloseAll(s, names).1 ==> Open(s, id) && !Open(CloseAll(s, names).0, id)
    decreases |names|
  {
    if names != [] {
      var s1 := CloseConnection(s, names[0]).0;
      CloseAllShrinks(s, [names[0]]);
      CloseAllShrinks(s1, names[1..]);
      CloseAllClosesOpen(s1, names[1..], id);
    }
  }

  lemma StepOnOpen(s: Server, timeout: nat, e: Event, id: nat)
    requires Tidy(s) && Turning(s.wheel, timeout)
    ensures var (s', seen) := Step(s, timeout, e);
      && (seen.what == Called(id) ==> Open(s, id))
      && (id in seen.closing ==> Open(s, id) && !Open(s', id))
      && (id < s.next && !Open(s, id) ==> !Open(s', id))
      && s.next <= s'.next
  {
    if e.Message? {
      CloseAllShrinks(s, e.closes);
      CloseAllClosesOpen(s, e.closes, id);
    }
  }

  lemma LastStep(timeout: nat, events: seq<Event>)
    requires events != []
    ensures var before, e := events[..|events| - 1], events[|events| - 1];
      var (s, trace) := Run(timeout, before);
      && Run(timeout, events) == (Step(s, timeout, e).0, trace + [Step(s, timeout, e).1])
      && Tidy(s)
  {
    hide Step;
    RunIsSound(timeout, events[..|events| - 1]);
  }

  lemma {:induction false} ClosedStaysClosed(timeout: nat, events: seq<Event>, i: nat, id: nat)
    requires i < |events| && id in Run(timeout, events).1[i].closing
    ensures id < Run(timeout, events).0.next && !Open(Run(timeout, events).0, id)
    decreases |events|
  {
    hide Step, Open, Tidy, Run;
    var before, e := events[..|events| - 1], events[|events| - 1];
    var (s, trace) := Run(timeout, before);
    LastStep(timeout, events);
    StepOnOpen(s, timeout, e, id);
    if i < |trace| {
      ClosedStaysClosed(timeout, before, i, id);
    } else {
      OpenIsNumbered(s, id);
    }
  }

  lemma OpenIsNumbered(s: Server, id: nat)
    requires Tidy(s)
    ensures Open(s, id) ==> id < s.next
  {
  }

  /** Once its close began, no message callback of a connection runs, and its close does not begin again. */
  lemma {:induction false} ClosingIsFinal(timeout: nat, events: seq<Event>, i: nat, j: nat, id: nat)
    requires i < j < |events|
    requires id in Run(timeout, events).1[i].closing
    ensures Run(timeout, events).1[j].what != Called(id) && id !in Run(timeout, events).1[j].closing
    decreases |events|
  {
    hide Step, Open, Tidy, Run;
    var before, e := events[..|events| - 1], events[|events| - 1];
    var (s, trace) := Run(timeout, before);
    LastStep(timeout, events);
    if j < |trace| {
      ClosingIsFinal(timeout, before, i, j, id);
    } else {
      ClosedStaysClosed(timeout, before, i, id);
      StepOnOpen(s, timeout, e, id);
    }
  }
}
