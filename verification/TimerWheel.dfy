/** The ring of sets by which idle values are let go: each tick clears the slot that comes up again. */
module TimerWheel {
  import opened Options

  /** The slot in use and all the slots. */
  datatype Wheel<T> = Wheel(index: nat, slots: seq<set<T>>)

  ghost predicate Turning<T>(w: Wheel<T>, timeout: nat) {
    |w.slots| == timeout && (timeout > 0 ==> w.index < timeout)
  }

  /** A value is held while it is in some slot. */
  predicate Holds<T>(w: Wheel<T>, v: T) { exists i :: 0 <= i < |w.slots| && v in w.slots[i] }

  function Put<T>(w: Wheel<T>, timeout: nat, v: T): Wheel<T>
    requires Turning(w, timeout)
  {
    if timeout > 0 then w.(slots := w.slots[w.index := w.slots[w.index] + {v}]) else w
  }

  function Successor(index: nat, timeout: nat): nat { if index + 1 == timeout then 0 else index + 1 }

  function Turned<T>(w: Wheel<T>, timeout: nat): Wheel<T>
    requires Turning(w, timeout)
  {
    if timeout == 0 then w
    else Wheel(Successor(w.index, timeout), w.slots[Successor(w.index, timeout) := {}])
  }

  /** What a tick lets go: the values it clears that no other slot holds. */
  function Released<T>(w: Wheel<T>, timeout: nat): set<T>
    requires Turning(w, timeout)
  {
    if timeout == 0 then {}
    else set v | v in w.slots[Successor(w.index, timeout)] && !Holds(Turned(w, timeout), v)
  }

  class TimerWheel<T(==)> {
    var index: nat
    var timeoutSec: nat
    var wheel: seq<set<T>>

    function State(): Wheel<T>
      reads this
    {
      Wheel(index, wheel)
    }

    /** Started, and its timeout not changed since. */
    ghost predicate Valid()
      reads this
    {
      Turning(State(), timeoutSec)
    }

    constructor (timeout: nat)
      ensures timeoutSec == timeout && State() == Wheel(0, [])
    {
      index, timeoutSec, wheel := 0, timeout, [];
    }

    method SetTimeout(seconds: nat)
      modifies this`timeoutSec
      ensures timeoutSec == seconds
    {
      timeoutSec := seconds;
    }

    /** Gives the wheel as many slots as its timeout has seconds. */
    method Start()
      requires State() == Wheel(0, [])
      modifies this`wheel
      ensures Valid() && State() == New(timeoutSec)
    {
      if timeoutSec > 0 {
        wheel := seq(timeoutSec, _ => {});
      }
    }

    method Insert(value: Option<T>)
      requires Valid()
      modifies this`wheel
      ensures Valid() && State() == if value.Some? then Put(old(State()), timeoutSec, value.value) else old(State())
    {
      if timeoutSec > 0 && value != None {
        wheel := wheel[index := wheel[index] + {value.value}];
      }
    }

    method WheelCallback() returns (released: set<T>)
      requires Valid()
      modifies this`index, this`wheel
      ensures Valid() && State() == Turned(old(State()), timeoutSec) && released == Released(old(State()), timeoutSec)
    {
      if timeoutSec == 0 {
        return {};
      }
      index := index + 1;
      if index == timeoutSec {
        index := 0;
      }
      var cleared := wheel[index];
      wheel := wheel[index := {}];
      released := set v | v in cleared && !Holds(State(), v);
    }
  }

  // ----- What is held after any run -----

  datatype WheelEvent<T> = Insert(v: T) | Tick

  function New<T>(timeout: nat): (w: Wheel<T>)
    ensures Turning(w, timeout)
  {
    Wheel(0, seq(timeout, _ => {}))
  }

  function After<T>(timeout: nat, events: seq<WheelEvent<T>>): (w: Wheel<T>)
    ensures Turning(w, timeout)
    decreases |events|
  {
    if events == [] then New(timeout)
    else
      var w := After(timeout, events[..|events| - 1]);
      match events[|events| - 1]
      case Insert(v) => Put(w, timeout, v)
      case Tick => Turned(w, timeout)
  }

  /** How many ticks ago a value was last inserted. */
  function Age<T(==)>(events: seq<WheelEvent<T>>, v: T): Option<nat>
    decreases |events|
  {
    if events == [] then None
    else
      var before := Age(events[..|events| - 1], v);
      match events[|events| - 1]
      case Insert(w) => if w == v then Some(0) else before
      case Tick => if before.Some? then Some(before.value + 1) else None
  }

  /** Whether a value was inserted, for the last time or not, `n` ticks ago. */
  ghost predicate InsertedAgo<T>(events: seq<WheelEvent<T>>, v: T, n: nat)
    decreases |events|
  {
    events != [] &&
    var before := events[..|events| - 1];
    match events[|events| - 1]
    case Insert(w) => (w == v && n == 0) || InsertedAgo(before, v, n)
    case Tick => n > 0 && InsertedAgo(before, v, n - 1)
  }

  lemma {:induction false} AgeIsLeast<T>(events: seq<WheelEvent<T>>, v: T)
    ensures match Age(events, v)
            case None => forall n: nat :: !InsertedAgo(events, v, n)
            case Some(a) => InsertedAgo(events, v, a) && forall n: nat :: n < a ==> !InsertedAgo(events, v, n)
    decreases |events|
  {
    if events != [] {
      AgeIsLeast(events[..|events| - 1], v);
      if events[|events| - 1].Tick? && Age(events, v).Some? {
        assert InsertedAgo(events[..|events| - 1], v, Age(events, v).value - 1);
      }
    }
  }

  /** How many ticks ago a slot was last in use. */
  function Back(index: nat, timeout: nat, i: nat): (n: nat)
    requires index < timeout && i < timeout
    ensures n < timeout
  {
    if i <= index then index - i else index + timeout - i
  }

  /** Every slot holds the values inserted while it was last in use. */
  lemma {:induction false} SlotHolds<T>(timeout: nat, events: seq<WheelEvent<T>>, i: nat, v: T)
    requires i < timeout
    ensures v in After(timeout, events).slots[i] <==> InsertedAgo(events, v, Back(After(timeout, events).index, timeout, i))
    decreases |events|
  {
    if events != [] {
      SlotHolds(timeout, events[..|events| - 1], i, v);
    }
  }

  /** A value is held if and only if its last insertion is fewer ticks ago than there are slots. */
  lemma HeldWhileRecent<T>(timeout: nat, events: seq<WheelEvent<T>>, v: T)
    ensures Holds(After(timeout, events), v) <==> Age(events, v).Some? && Age(events, v).value < timeout
  {
    hide After, InsertedAgo, Age;
    var w := After(timeout, events);
    AgeIsLeast(events, v);
    forall i: nat | i < timeout ensures v in w.slots[i] <==> InsertedAgo(events, v, Back(w.index, timeout, i)) {
      SlotHolds(timeout, events, i, v);
    }
    if Age(events, v).Some? && Age(events, v).value < timeout {
      var a := Age(events, v).value;
      var i := if a <= w.index then w.index - a else w.index + timeout - a;
      assert Back(w.index, timeout, i) == a && v in w.slots[i];
    }
  }

  /** A tick lets go exactly the values last inserted as many ticks before as there are slots. */
  lemma TickReleases<T>(timeout: nat, events: seq<WheelEvent<T>>, v: T)
    requires timeout > 0
    ensures v in Released(After(timeout, events), timeout) <==> Age(events + [Tick], v) == Some(timeout)
  {
    var w, now := After(timeout, events), events + [Tick];
    assert now[..|now| - 1] == events;
    assert After(timeout, now) == Turned(w, timeout);
    assert Age(now, v) == if Age(events, v).Some? then Some(Age(events, v).value + 1) else None;
    hide After, Age, Turned;
    HeldWhileRecent(timeout, events, v);
    HeldWhileRecent(timeout, now, v);
    ClearedOrKept(w, timeout, v);
  }

  lemma ClearedOrKept<T>(w: Wheel<T>, timeout: nat, v: T)
    requires Turning(w, timeout) && timeout > 0
    ensures v in Released(w, timeout) <==> Holds(w, v) && !Holds(Turned(w, timeout), v)
  {
    assert forall i :: 0 <= i < timeout && i != Successor(w.index, timeout) ==> Turned(w, timeout).slots[i] == w.slots[i];
    assert forall i :: 0 <= i < timeout ==> Turned(w, timeout).slots[i] <= w.slots[i];
  }
}
