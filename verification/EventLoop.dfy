/** The loop and its queue as objects; each method, when nothing comes between, is a sequence of the machine's steps. */
module EventLoop {
  import opened Options
  import opened EventLoopModel

  class Async<C> {
    var handle: Handle
    /** The signal of the handle, which is set or not. */
    var pending: bool
    var callbacks: seq<C>

    constructor ()
      ensures handle == Null && !pending && callbacks == []
    {
      handle, pending, callbacks := Null, false, [];
    }

    method Init()
      modifies this
      ensures callbacks == old(callbacks)
      ensures if old(handle) == Null then handle == Ready && pending else handle == old(handle) && pending == old(pending)
    {
      if handle == Null {
        handle := Raw;
        handle, pending := Ready, false;
        pending := true;
      }
    }

    method RunInThisLoop(callback: C)
      modifies this
      ensures callbacks == old(callbacks) + [callback] && handle == old(handle)
      ensures pending == (old(pending) || handle != Null)
    {
      callbacks := callbacks + [callback];
      if handle != Null {
        pending := true;
      }
    }

    /** Takes the whole queue, and runs what it took one by one. */
    method Process() returns (ran: seq<C>)
      modifies this`callbacks
      ensures callbacks == [] && ran == old(callbacks)
    {
      var taken := callbacks;
      callbacks := [];
      ran := [];
      while taken != []
        invariant ran + taken == old(callbacks)
      {
        assert ran + taken == ran + [taken[0]] + taken[1..];
        ran := ran + [taken[0]];
        taken := taken[1..];
      }
    }
  }

  class EventLoop<C> {
    var status: Status
    var loopThreadId: Option<nat>
    const async: Async<C>
    /** Where the machine is, and the steps that took it there. */
    ghost var s: State<C>
    ghost var history: seq<Step<C>>

    ghost predicate Valid()
      reads this, async
    {
      && Legal(Fresh(), history) && s == After(Fresh(), history)
      && status == s.status && loopThreadId == s.loopThread && s.handle != Raw
      && async.handle == s.handle && async.pending == s.pending && async.callbacks == s.queue
    }

    constructor ()
      ensures Valid() && s == Fresh() && history == [] && fresh(async)
    {
      async := new Async<C>();
      status, loopThreadId, s, history := NotRun, None, Fresh(), [];
    }

    method IsRunInLoopThread(thread: nat) returns (here: bool)
      requires Valid()
      ensures here == InLoopThread(s, thread) && (here <==> Keeper(history) == Some(thread))
    {
      hide Legal, After;
      HistoryRemembered(history);
      here := if status == Runed then loopThreadId == Some(thread) else false;
    }

    /** Starts the loop, up to where it waits for events; refused unless it is not running. */
    method Run(thread: nat) returns (rst: int)
      requires Valid() && (s.phase == Off || s.status != NotRun)
      modifies this, async
      ensures Valid() && rst == if old(s).status == NotRun then 0 else -1
      ensures Legal(old(s), Starting(old(s), thread)) && s == After(old(s), Starting(old(s), thread))
      ensures history == old(history) + Starting(old(s), thread)
    {
      hide Legal, After, Starting;
      Started(s, thread);
      LegalJoined(Fresh(), history, Starting(s, thread));
      history := history + Starting(s, thread);
      s := After(s, Starting(s, thread));
      if status == NotRun {
        async.Init();
        loopThreadId := Some(thread);
        status := Runed;
        rst := 0;
      } else {
        rst := -1;
      }
    }

    /** What `runNoWait` does when the loop has nothing more to do. */
    method Leave()
      requires Valid() && s.phase == Polling
      modifies this
      ensures Valid() && s == Next(old(s), Step.Leave) && history == old(history) + [Step.Leave]
    {
      hide Legal, After;
      ThenStep(Fresh(), history, Step.Leave);
      history := history + [Step.Leave];
      s := Next(s, Step.Leave);
      status := NotRun;
    }

    /** What `run` does when the loop has returned. */
    method End()
      requires Valid() && s.phase == Polling
      modifies this
      ensures Valid() && s == Next(old(s), Step.End) && history == old(history) + [Step.End] && status == Stop
    {
      hide Legal, After;
      ThenStep(Fresh(), history, Step.End);
      history := history + [Step.End];
      s := Next(s, Step.End);
      status := Stop;
    }

    /** A callback given to the loop: run at once by the loop's own thread or after the end, otherwise queued. */
    method RunInThisLoop(thread: nat, func: Option<C>) returns (direct: bool)
      requires Valid() && !Busy(s, thread)
      modifies this, async
      ensures Valid()
      ensures func == None ==> s == old(s) && history == old(history) && !direct
      ensures direct <==> func.Some? && (Keeper(old(history)) == Some(thread) || Step.End in old(history))
      ensures async.callbacks == old(async.callbacks) + if func == None || direct then [] else [func.value]
      ensures func.Some? ==> history == old(history) + Giving(old(s), thread, func.value)
      ensures func.Some? ==>
        && direct == (InLoopThread(old(s), thread) || old(s).status == Stop)
        && Legal(old(s), Giving(old(s), thread, func.value)) && s == After(old(s), Giving(old(s), thread, func.value))
    {
      hide Legal, After, Giving;
      direct := false;
      if func != None {
        var here := IsRunInLoopThread(thread);
        HistoryRemembered(history);
        Given(s, thread, func.value);
        LegalJoined(Fresh(), history, Giving(s, thread, func.value));
        history := history + Giving(s, thread, func.value);
        s := After(s, Giving(s, thread, func.value));
        if here || status == Stop {
          direct := true;
        } else {
          async.RunInThisLoop(func.value);
        }
      }
    }

    /** The loop wakes up at the signal and runs the queue. */
    method OnSignal() returns (ran: seq<C>)
      requires Valid() && s.phase == Polling && s.pending && s.batch == []
      modifies this, async
      ensures Valid() && ran == old(s).queue
      ensures Legal(old(s), Processing(old(s))) && s == After(old(s), Processing(old(s)))
      ensures history == old(history) + Processing(old(s))
    {
      hide Legal, After, Processing;
      Processed(s);
      LegalJoined(Fresh(), history, Processing(s));
      history := history + Processing(s);
      s := After(s, Processing(s));
      async.pending := false;
      ran := async.Process();
    }
  }
}
