/**
  Posting callbacks to a loop from other threads, as a state machine over the interleaved steps of
  the posting threads and of the loop. Signals coalesce: any number of sends before the loop wakes
  up wakes it once. The loop's own end is a step; what closing its handle does to libuv is not.
 */
module EventLoopModel {
  import opened Options

  datatype Status = NotRun | Runed | Stop

  /** `Raw` is a handle stored but not yet initialized. */
  datatype Handle = Null | Raw | Ready

  /** Where the loop's thread is: outside, in the three parts of its start, waiting, woken and yet to take
      the queue, or running what it took. */
  datatype Phase = Off | Assigned | Inited | Entering | Polling | Woken | Running

  /** A posting thread is about to push, to look at the handle, or to send. */
  datatype State<C> = State(
    status: Status, loopThread: Option<nat>, runner: nat, handle: Handle, pending: bool,
    queue: seq<C>, phase: Phase, batch: seq<C>,
    pushing: map<nat, C>, pushed: set<nat>, sending: set<nat>,
    posted: seq<C>, executed: seq<C>, direct: seq<C>)

  datatype Step<C> =
    | Post(thread: nat, func: C) | Push(thread: nat) | Check(thread: nat) | Send(thread: nat)
    | Run(thread: nat) | AsyncInit | InitSend | Enter | Wake | Swap | RunOne | Return | Leave | End

  function Fresh<C>(): State<C> {
    State(NotRun, None, 0, Null, false, [], Off, [], map[], {}, {}, [], [], [])
  }

  predicate Busy<C>(s: State<C>, thread: nat) { thread in s.pushing || thread in s.pushed || thread in s.sending }

  predicate InLoopThread<C>(s: State<C>, thread: nat) { s.status == Runed && s.loopThread == Some(thread) }

  /** Whether a step can be taken. */
  predicate Enabled<C>(s: State<C>, step: Step<C>) {
    match step
    case Post(thread, _) => !Busy(s, thread)
    case Push(thread) => thread in s.pushing
    case Check(thread) => thread in s.pushed
    case Send(thread) => thread in s.sending
    case Run(_) => s.phase == Off || s.status != NotRun
    case AsyncInit => s.phase == Assigned
    case InitSend => s.phase == Inited
    case Enter => s.phase == Entering
    case Wake => s.phase == Polling && s.pending
    case Swap => s.phase == Woken
    case RunOne => s.phase == Running && s.batch != []
    case Return => s.phase == Running && s.batch == []
    case Leave => s.phase == Polling
    case End => s.phase == Polling
  }

  function Next<C>(s: State<C>, step: Step<C>): State<C>
    requires Enabled(s, step)
  {
    match step
    case Post(thread, func) =>
      if InLoopThread(s, thread) || s.status == Stop then s.(direct := s.direct + [func])
      else s.(pushing := s.pushing[thread := func])
    case Push(thread) =>
      s.(queue := s.queue + [s.pushing[thread]], posted := s.posted + [s.pushing[thread]],
         pushing := s.pushing - {thread}, pushed := s.pushed + {thread})
    case Check(thread) =>
      s.(pushed := s.pushed - {thread}, sending := if s.handle == Null then s.sending else s.sending + {thread})
    case Send(thread) => s.(sending := s.sending - {thread}, pending := true)
    case Run(thread) =>
      if s.status != NotRun then s
      else if s.handle == Null then s.(handle := Raw, phase := Assigned, runner := thread)
      else s.(phase := Entering, runner := thread)
    case AsyncInit => s.(handle := Ready, pending := false, phase := Inited)
    case InitSend => s.(pending := true, phase := Entering)
    case Enter => s.(loopThread := Some(s.runner), status := Runed, phase := Polling)
    case Wake => s.(pending := false, phase := Woken)
    case Swap => s.(batch := s.queue, queue := [], phase := Running)
    case RunOne => s.(executed := s.executed + [s.batch[0]], batch := s.batch[1..])
    case Return => s.(phase := Polling)
    case Leave => s.(status := NotRun, phase := Off)
    case End => s.(status := Stop, phase := Off)
  }

  ghost predicate Legal<C>(s: State<C>, steps: seq<Step<C>>)
    decreases |steps|
  {
    steps == [] || (Enabled(s, steps[0]) && Legal(Next(s, steps[0]), steps[1..]))
  }

  function After<C>(s: State<C>, steps: seq<Step<C>>): State<C>
    requires Legal(s, steps)
    decreases |steps|
  {
    if steps == [] then s else After(Next(s, steps[0]), steps[1..])
  }

  lemma {:induction false} ThenStep<C>(s: State<C>, steps: seq<Step<C>>, step: Step<C>)
    requires Legal(s, steps) && Enabled(After(s, steps), step)
    ensures Legal(s, steps + [step]) && After(s, steps + [step]) == Next(After(s, steps), step)
    decreases |steps|
  {
    hide Next, Enabled;
    if steps == [] {
      assert [step][1..] == [] && steps + [step] == [step];
    } else {
      assert (steps + [step])[1..] == steps[1..] + [step];
      ThenStep(Next(s, steps[0]), steps[1..], step);
    }
  }

  lemma {:induction false} LegalJoined<C>(s: State<C>, a: seq<Step<C>>, b: seq<Step<C>>)
    requires Legal(s, a) && Legal(After(s, a), b)
    ensures Legal(s, a + b) && After(s, a + b) == After(After(s, a), b)
    decreases |a|
  {
    hide Next, Enabled;
    if a == [] {
      assert a + b == b;
    } else {
      assert (a + b)[1..] == a[1..] + b;
      LegalJoined(Next(s, a[0]), a[1..], b);
    }
  }

  /** Someone is still to signal or to take the queue. */
  ghost predicate Heard<C>(s: State<C>) {
    s.pending || s.pushed != {} || s.sending != {} || s.phase == Assigned || s.phase == Inited || s.phase == Woken
  }

  ghost predicate Inv<C>(s: State<C>) {
    && s.posted == s.executed + s.batch + s.queue
    && (s.handle != Null && s.queue != [] ==> Heard(s))
    && (s.phase != Running ==> s.batch == [])
    && (s.handle == Raw <==> s.phase == Assigned) && (s.handle == Null ==> s.phase == Off)
    && (s.status == Runed <==> s.phase in {Polling, Woken, Running}) && (s.status == Stop ==> s.phase == Off)
  }

  lemma NextKeepsInv<C>(s: State<C>, step: Step<C>)
    requires Inv(s) && Enabled(s, step)
    ensures Inv(Next(s, step))
  {
    match step {
      case Push(thread) =>
        assert s.executed + s.batch + s.queue + [s.pushing[thread]] == s.executed + s.batch + (s.queue + [s.pushing[thread]]);
      case Swap => assert s.executed + [] + s.queue == s.executed + s.queue + [];
      case RunOne => assert s.executed + s.batch + s.queue == (s.executed + [s.batch[0]]) + s.batch[1..] + s.queue;
      case _ =>
    }
  }

  lemma {:induction false} StepsKeepInv<C>(s: State<C>, steps: seq<Step<C>>)
    requires Inv(s) && Legal(s, steps)
    ensures Inv(After(s, steps))
    decreases |steps|
  {
    if steps != [] {
      NextKeepsInv(s, steps[0]);
      StepsKeepInv(Next(s, steps[0]), steps[1..]);
    }
  }

  /**
    In every interleaving, what was posted is what was run, followed by what the loop has taken and
    by what is queued; and once there is a handle, a queue that is not empty is heard of.
   */
  lemma NothingLostOrRepeated<C>(steps: seq<Step<C>>)
    requires Legal(Fresh(), steps)
    ensures var s := After(Fresh(), steps);
      s.posted == s.executed + s.batch + s.queue && (s.handle != Null && s.queue != [] ==> Heard(s))
  {
    hide After, Legal, Heard;
    StepsKeepInv(Fresh(), steps);
  }

  // ----- On which thread a callback runs at once -----

  /** The thread of the last start. */
  function LastRun<C>(steps: seq<Step<C>>): Option<nat>
    decreases |steps|
  {
    if steps == [] then None
    else match steps[|steps| - 1] case Run(thread) => Some(thread) case _ => LastRun(steps[..|steps| - 1])
  }

  /** The thread that runs the loop: the one whose start led to the last entry, if the loop was not left or ended since. */
  function Keeper<C>(steps: seq<Step<C>>): Option<nat>
    decreases |steps|
  {
    if steps == [] then None
    else
      var before := steps[..|steps| - 1];
      match steps[|steps| - 1]
      case Enter => LastRun(before)
      case Leave => None
      case End => None
      case _ => Keeper(before)
  }

  /** The state says what the history says. */
  ghost predicate Remembered<C>(s: State<C>, steps: seq<Step<C>>) {
    && (s.status == Stop <==> End in steps)
    && (if s.status == Runed then s.loopThread.Some? && Keeper(steps) == s.loopThread else Keeper(steps) == None)
    && (s.phase in {Assigned, Inited, Entering} ==> s.status == NotRun && LastRun(steps) == Some(s.runner))
    && (s.status == Stop ==> s.phase == Off) && (s.status == Runed ==> s.phase in {Polling, Woken, Running})
    && (s.status == NotRun ==> s.phase in {Off, Assigned, Inited, Entering})
  }

  lemma StepRemembered<C>(s: State<C>, steps: seq<Step<C>>, step: Step<C>)
    requires Remembered(s, steps) && Enabled(s, step)
    ensures Remembered(Next(s, step), steps + [step])
  {
    assert (steps + [step])[..|steps|] == steps;
  }

  lemma {:induction false} LegalPrefix<C>(s: State<C>, steps: seq<Step<C>>)
    requires steps != [] && Legal(s, steps)
    ensures var before, step := steps[..|steps| - 1], steps[|steps| - 1];
      Legal(s, before) && Enabled(After(s, before), step) && After(s, steps) == Next(After(s, before), step)
    decreases |steps|
  {
    hide Next, Enabled;
    if |steps| > 1 {
      LegalPrefix(Next(s, steps[0]), steps[1..]);
      assert steps[1..][..|steps| - 2] == steps[..|steps| - 1][1..];
    } else {
      assert steps[1..] == [];
    }
  }

  lemma {:induction false} HistoryRemembered<C>(steps: seq<Step<C>>)
    requires Legal(Fresh(), steps)
    ensures Remembered(After(Fresh(), steps), steps)
    decreases |steps|
  {
    if steps != [] {
      hide Legal, After, Remembered, Next, Enabled;
      var before, step := steps[..|steps| - 1], steps[|steps| - 1];
      LegalPrefix(Fresh(), steps);
      HistoryRemembered(before);
      StepRemembered(After(Fresh(), before), before, step);
      assert before + [step] == steps;
    }
  }

  /**
    In every run, a callback that a thread gives runs at once, on that thread, if and only if the thread is the one
    that runs the loop or the loop has ended; otherwise it is about to be queued, and nothing else changes.
   */
  lemma RunsAtOnceIff<C>(steps: seq<Step<C>>, thread: nat, func: C)
    requires Legal(Fresh(), steps) && Enabled(After(Fresh(), steps), Post(thread, func))
    ensures var s := After(Fresh(), steps);
      Next(s, Post(thread, func)) ==
        if Keeper(steps) == Some(thread) || End in steps then s.(direct := s.direct + [func])
        else s.(pushing := s.pushing[thread := func])
  {
    hide Legal, After, Keeper;
    HistoryRemembered(steps);
  }

  /** While one thread runs the loop, what another one gives is never run at once. */
  lemma OtherThreadQueues<C>(steps: seq<Step<C>>, runner: nat, thread: nat, func: C)
    requires Legal(Fresh(), steps) && Enabled(After(Fresh(), steps), Post(thread, func))
    requires Keeper(steps) == Some(runner) && thread != runner
    ensures Next(After(Fresh(), steps), Post(thread, func)).direct == After(Fresh(), steps).direct
  {
    hide Legal, After, Keeper;
    HistoryRemembered(steps);
  }

  // ----- Everything posted is run -----

  /** The steps that neither post anything new nor start or leave the loop. */
  predicate Inner<C>(step: Step<C>) { !step.Post? && !step.Run? && !step.Leave? && !step.End? }

  /** How many inner steps there can still be, at most. */
  function Rank<C>(s: State<C>): nat { Posting(s) + Looping(s) }

  function Posting<C>(s: State<C>): nat { 7 * |s.pushing| + 5 * |s.pushed| + 4 * |s.sending| }

  function Looping<C>(s: State<C>): nat {
    |s.queue| + |s.batch| + (if s.pending then 3 else 0) +
    match s.phase
    case Off => 0
    case Assigned => 7
    case Inited => 6
    case Entering => 2
    case Polling => 0
    case Woken => 2
    case Running => 1
  }

  lemma InnerLowersRank<C>(s: State<C>, step: Step<C>)
    requires Enabled(s, step) && Inner(step)
    ensures Rank(Next(s, step)) < Rank(s)
  {
    match step {
      case Push(thread) => PushLowers(s, thread);
      case Check(thread) => CheckLowers(s, thread);
      case Send(thread) => SendLowers(s, thread);
      case _ => LoopLowers(s, step);
    }
  }

  lemma PushLowers<C>(s: State<C>, thread: nat)
    requires thread in s.pushing
    ensures Rank(Next(s, Push(thread))) < Rank(s)
  {
    assert (s.pushing - {thread}).Keys == s.pushing.Keys - {thread};
    assert |s.pushing - {thread}| == |(s.pushing - {thread}).Keys|;
    assert |s.pushed + {thread}| <= |s.pushed| + 1;
  }

  lemma CheckLowers<C>(s: State<C>, thread: nat)
    requires thread in s.pushed
    ensures Rank(Next(s, Check(thread))) < Rank(s)
  {
    assert Looping(Next(s, Check(thread))) == Looping(s);
    hide Looping;
    assert |s.sending + {thread}| <= |s.sending| + 1 && |s.pushed - {thread}| == |s.pushed| - 1;
  }

  lemma SendLowers<C>(s: State<C>, thread: nat)
    requires thread in s.sending
    ensures Rank(Next(s, Send(thread))) < Rank(s)
  {
  }

  lemma LoopLowers<C>(s: State<C>, step: Step<C>)
    requires Enabled(s, step) && Inner(step) && !step.Push? && !step.Check? && !step.Send?
    ensures Rank(Next(s, step)) < Rank(s)
  {
    assert Posting(Next(s, step)) == Posting(s);
    hide Posting;
  }

  /** Without new posts the loop comes to rest after a bounded number of steps, in whatever order they are taken. */
  lemma {:induction false} ComesToRest<C>(s: State<C>, steps: seq<Step<C>>)
    requires Legal(s, steps) && forall i :: 0 <= i < |steps| ==> Inner(steps[i])
    ensures |steps| + Rank(After(s, steps)) <= Rank(s)
    decreases |steps|
  {
    if steps != [] {
      hide Rank, Next, Enabled;
      InnerLowersRank(s, steps[0]);
      ComesToRest(Next(s, steps[0]), steps[1..]);
    }
  }

  ghost predicate AtRest<C(!new)>(s: State<C>) { forall step :: Inner(step) ==> !Enabled(s, step) }

  lemma NobodyMidway<C(!new)>(s: State<C>)
    requires AtRest(s)
    ensures s.pushed == {} && s.sending == {} && s.phase in {Off, Polling} && (s.phase == Polling ==> !s.pending)
  {
    forall thread ensures thread !in s.pushed && thread !in s.sending {
      var check: Step<C>, send: Step<C> := Check(thread), Send(thread);
      assert Inner(check) && Inner(send) && !Enabled(s, check) && !Enabled(s, send);
    }
    var loop: seq<Step<C>> := [AsyncInit, InitSend, Enter, Wake, Swap, RunOne, Return];
    assert forall i :: 0 <= i < |loop| ==> Inner(loop[i]) && !Enabled(s, loop[i]);
    assert !Enabled(s, loop[0]) && !Enabled(s, loop[1]) && !Enabled(s, loop[2]) && !Enabled(s, loop[3]);
    assert !Enabled(s, loop[4]) && !Enabled(s, loop[5]) && !Enabled(s, loop[6]);
  }

  /** A started loop that has come to rest has run everything posted, each callback once and in order. */
  lemma RestIsComplete<C(!new)>(steps: seq<Step<C>>)
    requires Legal(Fresh(), steps) && AtRest(After(Fresh(), steps)) && After(Fresh(), steps).phase != Off
    ensures After(Fresh(), steps).executed == After(Fresh(), steps).posted && After(Fresh(), steps).queue == []
  {
    hide After, Legal, AtRest;
    var s := After(Fresh(), steps);
    StepsKeepInv(Fresh(), steps);
    NobodyMidway(s);
    assert s.executed + [] + [] == s.executed;
  }

  // ----- After the end -----

  lemma {:induction false} StoppedStays<C>(s: State<C>, steps: seq<Step<C>>)
    requires s.status == Stop && s.phase == Off && Legal(s, steps)
    ensures var t := After(s, steps); t.status == Stop && t.executed == s.executed && s.queue <= t.queue
    decreases |steps|
  {
    if steps != [] {
      StoppedStays(Next(s, steps[0]), steps[1..]);
    }
  }

  /** Once the loop has ended it runs nothing more: what is queued then stays in front of the queue for ever. */
  lemma EndIsFinal<C>(steps: seq<Step<C>>, more: seq<Step<C>>)
    requires Legal(Fresh(), steps) && After(Fresh(), steps).status == Stop && Legal(After(Fresh(), steps), more)
    ensures var s, t := After(Fresh(), steps), After(After(Fresh(), steps), more);
      t.status == Stop && t.executed == s.executed && s.queue <= t.queue && t.posted == t.executed + t.queue
  {
    hide After, Legal;
    var s := After(Fresh(), steps);
    StepsKeepInv(Fresh(), steps);
    StoppedStays(s, more);
    StepsKeepInv(s, more);
    var t := After(s, more);
    assert t.executed + [] + t.queue == t.executed + t.queue;
  }

  // ----- What one thread's code does when no other thread comes between -----

  /** The steps of starting a loop. */
  function Starting<C>(s: State<C>, thread: nat): seq<Step<C>> {
    if s.status != NotRun then [Run(thread)]
    else if s.handle == Null then [Run(thread)] + [AsyncInit] + [InitSend] + [Enter]
    else [Run(thread)] + [Enter]
  }

  lemma Started<C>(s: State<C>, thread: nat)
    requires s.phase == Off || s.status != NotRun
    ensures Legal(s, Starting(s, thread))
    ensures After(s, Starting(s, thread)) ==
            if s.status != NotRun then s
            else s.(status := Runed, loopThread := Some(thread), runner := thread, phase := Polling,
                    handle := if s.handle == Null then Ready else s.handle, pending := s.pending || s.handle == Null)
  {
    hide After, Legal;
    FirstStep(s, Run(thread));
    if s.status == NotRun && s.handle == Null {
      ThenStep(s, [Run(thread)], AsyncInit);
      ThenStep(s, [Run(thread)] + [AsyncInit], InitSend);
      ThenStep(s, [Run(thread)] + [AsyncInit] + [InitSend], Enter);
    } else if s.status == NotRun {
      ThenStep(s, [Run(thread)], Enter);
    }
  }

  lemma FirstStep<C>(s: State<C>, step: Step<C>)
    requires Enabled(s, step)
    ensures Legal(s, [step]) && After(s, [step]) == Next(s, step)
  {
    hide Next, Enabled;
    assert [step][1..] == [];
  }

  /** The steps of giving a callback to the loop. */
  function Giving<C>(s: State<C>, thread: nat, func: C): seq<Step<C>> {
    if InLoopThread(s, thread) || s.status == Stop then [Post(thread, func)]
    else if s.handle == Null then [Post(thread, func)] + [Push(thread)] + [Check(thread)]
    else [Post(thread, func)] + [Push(thread)] + [Check(thread)] + [Send(thread)]
  }

  lemma Given<C>(s: State<C>, thread: nat, func: C)
    requires !Busy(s, thread)
    ensures Legal(s, Giving(s, thread, func))
    ensures After(s, Giving(s, thread, func)) ==
            if InLoopThread(s, thread) || s.status == Stop then s.(direct := s.direct + [func])
            else s.(queue := s.queue + [func], posted := s.posted + [func], pending := s.pending || s.handle != Null)
  {
    hide After, Legal;
    FirstStep(s, Post(thread, func));
    if !InLoopThread(s, thread) && s.status != Stop {
      var t := Next(s, Post(thread, func));
      ThenStep(s, [Post(thread, func)], Push(thread));
      assert Next(t, Push(thread)).pushing == s.pushing;
      ThenStep(s, [Post(thread, func)] + [Push(thread)], Check(thread));
      assert Next(Next(t, Push(thread)), Check(thread)).pushed == s.pushed;
      if s.handle != Null {
        ThenStep(s, [Post(thread, func)] + [Push(thread)] + [Check(thread)], Send(thread));
        assert Next(Next(Next(t, Push(thread)), Check(thread)), Send(thread)).sending == s.sending;
      }
    }
  }

  /** The steps of running `n` callbacks one by one. */
  function RunOnes<C>(n: nat): seq<Step<C>> { if n == 0 then [] else RunOnes(n - 1) + [RunOne] }

  lemma {:induction false} RunOneByOne<C>(s: State<C>, steps: seq<Step<C>>, n: nat)
    requires Legal(s, steps) && After(s, steps).phase == Running && n <= |After(s, steps).batch|
    ensures Legal(s, steps + RunOnes(n))
    ensures var t := After(s, steps);
      After(s, steps + RunOnes(n)) == t.(executed := t.executed + t.batch[..n], batch := t.batch[n..])
    decreases n
  {
    hide After, Legal;
    var t := After(s, steps);
    if n == 0 {
      assert steps + [] == steps && t.executed + [] == t.executed && t.batch[0..] == t.batch;
    } else {
      RunOneByOne(s, steps, n - 1);
      ThenStep(s, steps + RunOnes(n - 1), RunOne);
      assert steps + RunOnes(n - 1) + [RunOne] == steps + RunOnes(n);
      assert t.batch[n - 1..][1..] == t.batch[n..] && t.batch[..n] == t.batch[..n - 1] + [t.batch[n - 1]];
      assert t.executed + t.batch[..n - 1] + [t.batch[n - 1]] == t.executed + t.batch[..n];
    }
  }

  /** The steps of one wake-up. */
  function Processing<C>(s: State<C>): seq<Step<C>> { [Wake] + [Swap] + RunOnes(|s.queue|) + [Return] }

  lemma Processed<C>(s: State<C>)
    requires s.phase == Polling && s.pending && s.batch == []
    ensures Legal(s, Processing(s))
    ensures After(s, Processing(s)) == s.(pending := false, queue := [], executed := s.executed + s.queue)
  {
    hide After, Legal, RunOnes;
    FirstStep(s, Wake);
    ThenStep(s, [Wake], Swap);
    RunOneByOne(s, [Wake] + [Swap], |s.queue|);
    assert s.queue[..|s.queue|] == s.queue && s.queue[|s.queue|..] == [];
    ThenStep(s, [Wake] + [Swap] + RunOnes(|s.queue|), Return);
  }
}
