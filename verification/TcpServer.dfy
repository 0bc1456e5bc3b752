/** The server and its connections as objects that change in place. */
module TcpServer {
  import opened Options
  import opened TimerWheel
  import Model = TcpServerModel

  class TcpConnection {
    const name: string
    const id: nat
    var onMessageCallback: bool
    var onConnectCloseCallback: bool
    var closeCompleteCallback: bool
    /** Whether closing of the handle was asked for. */
    var isClosing: bool

    function State(): Model.Connection
      reads this
    {
      Model.Connection(id, onMessageCallback, onConnectCloseCallback, closeCompleteCallback, isClosing)
    }

    constructor (name: string, id: nat)
      ensures this.name == name && State() == Model.Connection(id, false, false, false, false)
    {
      this.name, this.id := name, id;
      onMessageCallback, onConnectCloseCallback, closeCompleteCallback, isClosing := false, false, false, false;
    }

    /** Begins to close, or tells that closing had begun before. */
    method Close() returns (began: bool)
      modifies this
      ensures began == !old(isClosing) && State() == Model.Silenced(old(State()))
    {
      onMessageCallback, onConnectCloseCallback := false, false;
      closeCompleteCallback := true;
      began := !isClosing;
      isClosing := true;
    }
  }

  class TcpServer {
    var connections: map<string, TcpConnection>
    const timerWheel: TimerWheel<nat>
    /** Numbers the connections; it stands for their addresses. */
    var accepted: nat

    ghost predicate Valid()
      reads this, timerWheel, connections.Values
    {
      && timerWheel.Valid()
      && (forall n :: n in connections ==> connections[n].name == n)
    }

    ghost function State(): Model.Server
      reads this, timerWheel, connections.Values
    {
      Model.Server(map n | n in connections :: connections[n].State(), timerWheel.State(), accepted)
    }

    constructor (timeout: nat)
      ensures Valid() && timerWheel.timeoutSec == timeout && State() == Model.Run(timeout, []).0
      ensures fresh(timerWheel)
    {
      var wheel := new TimerWheel<nat>(timeout);
      wheel.Start();
      connections, timerWheel, accepted := map[], wheel, 0;
    }

    method CloseConnection(name: string) returns (closing: set<nat>, gone: set<nat>)
      requires Valid()
      modifies this`connections, connections.Values
      ensures Valid() && connections.Values <= old(connections.Values) && accepted == old(accepted)
      ensures (State(), closing, gone) == Model.CloseConnection(old(State()), name)
    {
      closing, gone := {}, {};
      if name in connections {
        var connection := connections[name];
        var began := connection.Close();
        if began {
          closing := {connection.id};
          assert State().connections == old(State()).connections[name := connection.State()];
        } else {
          gone := {connection.id};
          connections := connections - {name};
          assert State().connections == old(State()).connections - {name};
        }
      }
    }

    method OnSocketClose(name: string) returns (closing: set<nat>, gone: set<nat>)
      requires Valid()
      modifies this`connections, connections.Values
      ensures Valid() && connections.Values <= old(connections.Values)
      ensures (State(), closing, gone) == Model.SocketClosed(old(State()), name)
    {
      closing, gone := {}, {};
      if name in connections && connections[name].onConnectCloseCallback {
        closing, gone := CloseConnection(name);
      }
    }

    /** Keeps the connection that has the address already, if there is one. */
    method AddConnection(name: string, connection: TcpConnection)
      requires Valid() && connection.name == name
      modifies this`connections
      ensures Valid() && connections.Values <= old(connections.Values) + {connection}
      ensures State() == old(State()).(connections := Model.Added(old(State()).connections, name, connection.State()))
    {
      if name !in connections {
        connections := connections[name := connection];
      }
      assert State().connections == Model.Added(old(State()).connections, name, connection.State());
    }

    method InsertWrapper(wrapper: Option<nat>)
      requires Valid()
      modifies timerWheel
      ensures Valid() && timerWheel.timeoutSec == old(timerWheel.timeoutSec)
      ensures State() == if wrapper == None then old(State())
                         else old(State()).(wheel := Put(old(State()).wheel, timerWheel.timeoutSec, wrapper.value))
    {
      if timerWheel.timeoutSec > 0 {
        timerWheel.Insert(wrapper);
      }
      assert State().connections == old(State()).connections;
    }

    method OnAccept(name: string) returns (what: Model.What)
      requires Valid()
      modifies this`connections, this`accepted, timerWheel
      ensures Valid() && fresh(connections.Values - old(connections.Values))
      ensures timerWheel.timeoutSec == old(timerWheel.timeoutSec)
      ensures (State(), Model.Seen(what, {}, {})) == Model.Step(old(State()), timerWheel.timeoutSec, Model.Accept(name))
    {
      hide Holds, Turned, Put, Model.Added;
      what := Model.Accepted(accepted);
      var connection := new TcpConnection(name, accepted);
      connection.onMessageCallback := true;
      connection.onConnectCloseCallback := true;
      assert State() == old(State());
      AddConnection(name, connection);
      InsertWrapper(Some(accepted));
      ghost var last := State().connections;
      accepted := accepted + 1;
      assert State().connections == last;
    }

    method CloseAll(names: seq<string>) returns (closing: set<nat>, gone: set<nat>)
      requires Valid()
      modifies this`connections, connections.Values
      ensures Valid() && connections.Values <= old(connections.Values)
      ensures (State(), closing, gone) == Model.CloseAll(old(State()), names)
      decreases |names|
    {
      hide Valid, State;
      if names == [] {
        closing, gone := {}, {};
      } else {
        closing, gone := CloseConnection(names[0]);
        var more, others := CloseAll(names[1..]);
        closing, gone := closing + more, gone + others;
      }
    }

    /** The user's callback may close any connections; then the wrapper, if there still is one, is put in the slot in use. */
    method OnMessage(name: string, closes: seq<string>) returns (what: Model.What, closing: set<nat>, gone: set<nat>)
      requires Valid()
      modifies this`connections, connections.Values, timerWheel
      ensures Valid() && connections.Values <= old(connections.Values) && timerWheel.timeoutSec == old(timerWheel.timeoutSec)
      ensures (State(), Model.Seen(what, closing, gone)) ==
              Model.Step(old(State()), timerWheel.timeoutSec, Model.Message(name, closes))
    {
      closing, gone, what := {}, {}, Model.Nothing;
      if name in connections && connections[name].onMessageCallback {
        var connection := connections[name];
        what := Model.Called(connection.id);
        Model.CloseAllKeeps(State(), closes);
        closing, gone := CloseAll(closes);
        InsertWrapper(if Holds(timerWheel.State(), connection.id) then Some(connection.id) else None);
      }
    }

    method TurnWheel() returns (released: set<nat>)
      requires Valid()
      modifies timerWheel
      ensures Valid() && timerWheel.timeoutSec == old(timerWheel.timeoutSec)
      ensures released == Released(old(State()).wheel, timerWheel.timeoutSec)
      ensures State() == old(State()).(wheel := Turned(old(State()).wheel, timerWheel.timeoutSec))
    {
      released := timerWheel.WheelCallback();
      assert State().connections == old(State()).connections;
    }

    /** The destructor of a wrapper: its connection, if there still is one, is told that it is closed. */
    method Destruct(id: nat) returns (closing: set<nat>, gone: set<nat>)
      requires Valid() && Model.Tidy(State())
      modifies this`connections, connections.Values
      ensures Valid() && connections.Values <= old(connections.Values)
      ensures forall n :: n in old(State()).connections && old(State()).connections[n].id == id ==>
                (State(), closing, gone) == Model.SocketClosed(old(State()), n)
      ensures (forall n :: n in old(State()).connections ==> old(State()).connections[n].id != id) ==>
                (State(), closing, gone) == (old(State()), {}, {})
    {
      closing, gone := {}, {};
      var names := set n | n in connections && connections[n].id == id;
      assert forall n :: n in State().connections && State().connections[n].id == id ==> n in names;
      if names != {} {
        var name :| name in names;
        closing, gone := OnSocketClose(name);
      }
    }

    /** The wrappers let go are destroyed one after the other, in any order. */
    method DestructAll(released: set<nat>) returns (closing: set<nat>, gone: set<nat>)
      requires Valid() && Model.Tidy(State())
      modifies this`connections, connections.Values
      ensures Valid() && connections.Values <= old(connections.Values)
      ensures var s := old(State()); var names := Model.Expired(s, released);
        State() == Model.CloseExpired(s, names) && closing == Model.IdsOf(s, names) && gone == {}
    {
      hide Valid, State, Model.Tidy, Model.SocketClosed, Model.CloseExpired, Model.IdsOf, Model.Expired;
      ghost var s, done: set<nat> := State(), {};
      var rest := released;
      closing, gone := {}, {};
      Model.ExpireNone(s);
      while rest != {}
        invariant Valid() && connections.Values <= old(connections.Values) && Model.Tidy(State())
        invariant done + rest == released && done !! rest && gone == {}
        invariant State() == Model.CloseExpired(s, Model.Expired(s, done)) && closing == Model.IdsOf(s, Model.Expired(s, done))
        decreases |rest|
      {
        var id :| id in rest;
        Model.ExpiryIsTidy(s, Model.Expired(s, done));
        Model.ExpiryIsTidy(s, Model.Expired(s, done + {id}));
        var more, others := Destruct(id);
        if name :| name in s.connections && s.connections[name].id == id {
          Model.ExpireOneMore(s, done, id, name);
        } else {
          Model.ExpireNoMore(s, done, id);
        }
        closing, gone := closing + more, gone + others;
        rest, done := rest - {id}, done + {id};
      }
      assert done == released;
    }

    method OnTimer() returns (closing: set<nat>, gone: set<nat>)
      requires Valid() && Model.Tidy(State())
      modifies this`connections, connections.Values, timerWheel
      ensures Valid() && connections.Values <= old(connections.Values) && timerWheel.timeoutSec == old(timerWheel.timeoutSec)
      ensures (State(), Model.Seen(Model.Ticked, closing, gone)) ==
              Model.Step(old(State()), timerWheel.timeoutSec, Model.Timer)
    {
      hide Released, Turned;
      var released := TurnWheel();
      closing, gone := DestructAll(released);
    }

    /** libuv has closed the handle. */
    method OnCloseComplete(name: string) returns (gone: set<nat>)
      requires Valid()
      modifies this`connections
      ensures Valid() && connections.Values <= old(connections.Values)
      ensures (State(), Model.Seen(Model.Nothing, {}, gone)) ==
              Model.Step(old(State()), timerWheel.timeoutSec, Model.Completed(name))
    {
      gone := {};
      if name in connections && connections[name].isClosing && connections[name].closeCompleteCallback {
        gone := {connections[name].id};
        connections := connections - {name};
        assert State().connections == old(State()).connections - {name};
      }
    }

    /** Every event does to the objects what the state machine says. */
    method Handle(e: Model.Event) returns (seen: Model.Seen)
      requires Valid() && Model.Tidy(State())
      modifies this`connections, this`accepted, connections.Values, timerWheel
      ensures Valid() && fresh(connections.Values - old(connections.Values))
      ensures timerWheel.timeoutSec == old(timerWheel.timeoutSec)
      ensures (State(), seen) == Model.Step(old(State()), timerWheel.timeoutSec, e)
    {
      hide Valid, State, Model.Tidy, Model.Expired, Model.CloseExpired, Model.CloseConnection, Model.CloseAll;
      var what, closing, gone := Model.Nothing, {}, {};
      match e {
        case Accept(name) => what := OnAccept(name);
        case Message(name, closes) => what, closing, gone := OnMessage(name, closes);
        case Timer =>
          what := Model.Ticked;
          closing, gone := OnTimer();
        case Close(name) => closing, gone := CloseConnection(name);
        case Failed(name) => closing, gone := OnSocketClose(name);
        case Completed(name) => gone := OnCloseComplete(name);
      }
      seen := Model.Seen(what, closing, gone);
    }
  }
}
