/** The life of a connection in the server's table: let in, open, closing, gone; and what each event does to it. */
module TcpServerLife {
  import opened Options
  import opened TimerWheel
  import opened TcpServerModel

  /** What the table holds for an address. */
  datatype Entry = Absent | Opened(id: nat) | Shut(id: nat)

  ghost function At(s: Server, name: string): Entry {
    if name !in s.connections then Absent
    else if s.connections[name].closing then Shut(s.connections[name].id)
    else Opened(s.connections[name].id)
  }

  /** An entry after it was closed `n` times: the first time closing begins, and the second time it is dropped. */
  function Closed(e: Entry, n: nat): Entry {
    match e
    case Absent => Absent
    case Opened(id) => if n == 0 then e else if n == 1 then Shut(id) else Absent
    case Shut(id) => if n == 0 then e else Absent
  }

  /** The ids whose closing begins, and those that are dropped, when an entry is closed `n` times. */
  function Begun(e: Entry, n: nat): set<nat> { if e.Opened? && n > 0 then {e.id} else {} }

  function Dropped(e: Entry, n: nat): set<nat> { if (e.Opened? && n > 1) || (e.Shut? && n > 0) then {e.id} else {} }

  // ----- What each event does -----

  /** A connection is let in if and only if its address is free. */
  lemma AcceptMeans(s: Server, timeout: nat, name: string)
    requires Tidy(s) && Turning(s.wheel, timeout)
    ensures var (s', seen) := Step(s, timeout, Accept(name));
      && At(s', name) == (if At(s, name) == Absent then Opened(s.next) else At(s, name))
      && (forall m :: m != name ==> At(s', m) == At(s, m))
      && s'.next == s.next + 1 && seen == Seen(Accepted(s.next), {}, {})
  {
  }

  /** Closing begins, and a second time drops the connection and frees its address. */
  lemma CloseMeans(s: Server, timeout: nat, name: string)
    requires Tidy(s) && Turning(s.wheel, timeout)
    ensures var (s', seen) := Step(s, timeout, Close(name));
      && At(s', name) == Closed(At(s, name), 1) && (forall m :: m != name ==> At(s', m) == At(s, m))
      && seen == Seen(Nothing, Begun(At(s, name), 1), Dropped(At(s, name), 1)) && s'.next == s.next
  {
  }

  /** A failed socket begins to close if it was open, and is not dropped before its closing is complete. */
  lemma FailedMeans(s: Server, timeout: nat, name: string)
    requires Tidy(s) && Turning(s.wheel, timeout)
    ensures var (s', seen) := Step(s, timeout, Failed(name)); var e := At(s, name);
      && At(s', name) == (if e.Opened? then Shut(e.id) else e) && (forall m :: m != name ==> At(s', m) == At(s, m))
      && seen == Seen(Nothing, if e.Opened? then {e.id} else {}, {}) && s'.next == s.next
  {
  }

  /** The end of closing drops the connection and frees its address. */
  lemma CompletedMeans(s: Server, timeout: nat, name: string)
    requires Tidy(s) && Turning(s.wheel, timeout)
    ensures var (s', seen) := Step(s, timeout, Completed(name)); var e := At(s, name);
      && At(s', name) == (if e.Shut? then Absent else e) && (forall m :: m != name ==> At(s', m) == At(s, m))
      && seen == Seen(Nothing, {}, if e.Shut? then {e.id} else {}) && s'.next == s.next
  {
  }

  /** The same of all names the user's callback closes, each as often as it is named. */
  lemma {:induction false} CloseAllMeans(s: Server, names: seq<string>, m: string)
    requires Tidy(s)
    ensures At(CloseAll(s, names).0, m) == Closed(At(s, m), multiset(names)[m])
    decreases |names|
  {
    if names != [] {
      var s1 := CloseConnection(s, names[0]).0;
      CloseConnectionShrinks(s, names[0]);
      assert names == [names[0]] + names[1..];
      CloseAllMeans(s1, names[1..], m);
    }
  }

  /** A message of an open connection runs the user's callback, which may close any connections; of another it does nothing. */
  lemma MessageMeans(s: Server, timeout: nat, name: string, closes: seq<string>, m: string)
    requires Tidy(s) && Turning(s.wheel, timeout)
    ensures var (s', seen) := Step(s, timeout, Message(name, closes)); var e := At(s, name);
      && seen.what == (if e.Opened? then Called(e.id) else Nothing)
      && At(s', m) == (if e.Opened? then Closed(At(s, m), multiset(closes)[m]) else At(s, m))
      && (!e.Opened? ==> s' == s && seen.closing == {} && seen.gone == {}) && s'.next == s.next
  {
    CloseAllMeans(s, closes, m);
    CloseAllKeeps(s, closes);
  }

  /** A tick begins to close the open connections silent for the timeout, and changes nothing else in the table. */
  lemma TimerMeans(timeout: nat, events: seq<Event>, m: string)
    ensures var (s, trace) := Run(timeout, events);
      var (s', seen) := Step(s, timeout, Timer); var e := At(s, m);
      At(s', m) == if e.Opened? && timeout > 0 && Silence(trace + [seen], e.id) == Some(timeout) then Shut(e.id) else e
  {
    hide Run, Silence;
    var (s, trace) := Run(timeout, events);
    RunIsSound(timeout, events);
    if m in s.connections {
      TimerClosesExactlyTheSilent(timeout, events, s.connections[m].id);
      OneAddress(s, m);
    }
  }

  lemma OneAddress(s: Server, m: string)
    requires Tidy(s) && m in s.connections
    ensures forall n :: n in s.connections && s.connections[n].id == s.connections[m].id ==> n == m
    ensures Open(s, s.connections[m].id) <==> At(s, m).Opened?
    ensures Closing(s, s.connections[m].id) <==> At(s, m).Shut?
  {
  }

  /** After the end of closing, or a second close, the next connection from that address is let in. */
  lemma FreedForTheNext(s: Server, timeout: nat, name: string, e: Event)
    requires Tidy(s) && Turning(s.wheel, timeout) && At(s, name).Shut? && (e == Completed(name) || e == Close(name))
    ensures var (s', seen) := Step(s, timeout, e);
      && seen.gone == {At(s, name).id} && At(s', name) == Absent
      && At(Step(s', timeout, Accept(name)).0, name) == Opened(s.next)
  {
    CloseMeans(s, timeout, name);
    CompletedMeans(s, timeout, name);
    CloseShrinks(s, timeout, e);
    AcceptMeans(Step(s, timeout, e).0, timeout, name);
  }

  // ----- The life of a connection, over every run -----

  ghost predicate Closing(s: Server, id: nat) { exists n :: n in s.connections && s.connections[n].id == id && s.connections[n].closing }

  /** This event lets the connection in. */
  ghost predicate LetsIn(s: Server, e: Event, id: nat) { e.Accept? && At(s, e.name) == Absent && s.next == id }

  /** Some event of the run did. */
  ghost predicate LetIn(timeout: nat, events: seq<Event>, id: nat)
    decreases |events|
  {
    events != [] &&
    var before := events[..|events| - 1];
    LetIn(timeout, before, id) || LetsIn(Run(timeout, before).0, events[|events| - 1], id)
  }

  /** How many events began to close a connection. */
  function Closings(trace: seq<Seen>, id: nat): nat
    decreases |trace|
  {
    if trace == [] then 0 else Closings(trace[..|trace| - 1], id) + if id in trace[|trace| - 1].closing then 1 else 0
  }

  /** How many events dropped it. */
  function Goings(trace: seq<Seen>, id: nat): nat
    decreases |trace|
  {
    if trace == [] then 0 else Goings(trace[..|trace| - 1], id) + if id in trace[|trace| - 1].gone then 1 else 0
  }

  /** How one change of the table moves a connection on. */
  ghost predicate Moves(s: Server, s': Server, closing: set<nat>, gone: set<nat>, id: nat) {
    && (Open(s', id) <==> Open(s, id) && id !in closing)
    && (Closing(s', id) <==> (Closing(s, id) || id in closing) && id !in gone)
    && (id in closing ==> Open(s, id)) && (id in gone ==> Closing(s, id) || id in closing)
  }

  lemma NotBoth(s: Server, id: nat)
    requires Tidy(s)
    ensures !(Open(s, id) && Closing(s, id))
    ensures Open(s, id) || Closing(s, id) ==> id < s.next
  {
  }

  lemma CloseMoves(s: Server, name: string, id: nat)
    requires Tidy(s)
    ensures var (s', closing, gone) := CloseConnection(s, name); Moves(s, s', closing, gone, id)
  {
    var s' := CloseConnection(s, name).0;
    if name in s.connections {
      assert forall n :: n in s'.connections && n != name ==> s'.connections[n] == s.connections[n];
      assert forall n :: n in s.connections && n != name ==> n in s'.connections && s'.connections[n].id != s.connections[name].id;
      if n :| n in s.connections && s.connections[n].id == id && n != name {
        assert s'.connections[n] == s.connections[n];
      }
      if name in s'.connections { assert s'.connections[name].id == s.connections[name].id; }
    }
  }

  lemma {:induction false} CloseAllMoves(s: Server, names: seq<string>, id: nat)
    requires Tidy(s)
    ensures var (s', closing, gone) := CloseAll(s, names); Moves(s, s', closing, gone, id)
    decreases |names|
  {
    if names != [] {
      hide CloseConnection, Tidy, Open, Closing;
      var s1 := CloseConnection(s, names[0]).0;
      CloseConnectionShrinks(s, names[0]);
      CloseMoves(s, names[0], id);
      CloseAllMoves(s1, names[1..], id);
      NotBoth(s, id);
      NotBoth(s1, id);
    }
  }

  lemma ExpiryMoves(s: Server, timeout: nat, id: nat)
    requires Tidy(s) && Turning(s.wheel, timeout)
    ensures var (s', seen) := Step(s, timeout, Timer); Moves(s, s', seen.closing, seen.gone, id)
  {
    hide Released, Turned;
    var names := Expired(s, Released(s.wheel, timeout));
    var s' := Step(s, timeout, Timer).0;
    assert s'.connections.Keys == s.connections.Keys;
    if n :| n in s.connections && s.connections[n].id == id {
      assert s'.connections[n] == if n in names then Silenced(s.connections[n]) else s.connections[n];
    }
  }

  lemma AcceptMoves(s: Server, timeout: nat, name: string, id: nat)
    requires Tidy(s) && Turning(s.wheel, timeout)
    ensures var s' := Step(s, timeout, Accept(name)).0;
      && (Open(s', id) <==> Open(s, id) || LetsIn(s, Accept(name), id)) && (Closing(s', id) <==> Closing(s, id))
  {
    var s' := Step(s, timeout, Accept(name)).0;
    if name !in s.connections {
      assert name in s'.connections && s'.connections[name].id == s.next && !s'.connections[name].closing;
    }
    assert forall n :: n in s.connections ==> n in s'.connections && s'.connections[n] == s.connections[n];
  }

  lemma CompletedMoves(s: Server, timeout: nat, name: string, id: nat)
    requires Tidy(s) && Turning(s.wheel, timeout)
    ensures var (s', seen) := Step(s, timeout, Completed(name)); Moves(s, s', seen.closing, seen.gone, id)
  {
    var s' := Step(s, timeout, Completed(name)).0;
    assert forall n :: n in s.connections && n != name ==> n in s'.connections && s'.connections[n] == s.connections[n];
  }

  lemma SameMoves(s: Server, s': Server, id: nat)
    requires s'.connections == s.connections
    ensures Moves(s, s', {}, {}, id)
  {
  }

  lemma StepMoves(s: Server, timeout: nat, e: Event, id: nat)
    requires Tidy(s) && Turning(s.wheel, timeout)
    ensures var (s', seen) := Step(s, timeout, e);
      if LetsIn(s, e, id) then Open(s', id) && !Closing(s', id) && id !in seen.closing && id !in seen.gone
      else Moves(s, s', seen.closing, seen.gone, id)
  {
    hide Open, Closing, Tidy, CloseConnection, CloseAll, Expired, CloseExpired;
    NotBoth(s, id);
    SameMoves(s, s, id);
    match e {
      case Accept(name) => AcceptMoves(s, timeout, name, id);
      case Message(name, closes) => CloseAllMoves(s, closes, id); WheelAside(s, timeout, name, closes, id);
      case Timer => ExpiryMoves(s, timeout, id);
      case Completed(name) => CompletedMoves(s, timeout, name, id);
      case Close(name) => CloseMoves(s, name, id);
      case Failed(name) => CloseMoves(s, name, id);
    }
  }

  lemma WheelAside(s: Server, timeout: nat, name: string, closes: seq<string>, id: nat)
    requires Turning(s.wheel, timeout) && Moves(s, CloseAll(s, closes).0, CloseAll(s, closes).1, CloseAll(s, closes).2, id)
    ensures var (s', seen) := Step(s, timeout, Message(name, closes)); Moves(s, s', seen.closing, seen.gone, id)
  {
    SameMoves(s, s, id);
  }

  /**
    In every run, a connection that was let in is at any moment exactly one of three: open, and nothing has
    closed it; closing, and exactly one event began that; or gone, by exactly one event after one had begun to close
    it. One that was not let in is none of them.
   */
  lemma {:induction false} LifeCycle(timeout: nat, events: seq<Event>, id: nat)
    ensures var (s, trace) := Run(timeout, events);
      && (Open(s, id) <==> LetIn(timeout, events, id) && Closings(trace, id) == 0)
      && (Closing(s, id) <==> Closings(trace, id) == 1 && Goings(trace, id) == 0)
      && Goings(trace, id) <= Closings(trace, id) <= 1
      && (Closings(trace, id) == 1 ==> LetIn(timeout, events, id)) && (LetIn(timeout, events, id) ==> id < s.next)
    decreases |events|
  {
    if events == [] {
      NoneYet(timeout, id);
    } else {
      hide Step, Open, Closing, Tidy, Run;
      var before, e := events[..|events| - 1], events[|events| - 1];
      var (s, trace) := Run(timeout, before);
      var seen := Step(s, timeout, e).1;
      LastStep(timeout, events);
      LifeCycle(timeout, before, id);
      StepMoves(s, timeout, e, id);
      StepOnNext(s, timeout, e);
      NotBoth(s, id);
      assert (trace + [seen])[..|trace|] == trace;
    }
  }

  lemma NoneYet(timeout: nat, id: nat)
    ensures !Open(Run(timeout, []).0, id) && !Closing(Run(timeout, []).0, id) && Run(timeout, []).1 == []
  {
  }

  lemma StepOnNext(s: Server, timeout: nat, e: Event)
    requires Turning(s.wheel, timeout)
    ensures Step(s, timeout, e).0.next == if e.Accept? then s.next + 1 else s.next
  {
    if e.Message? { CloseAllKeeps(s, e.closes); }
  }
}
