/**
 * The browser ticker (src/time/wasm.rs): a `setInterval` callback and the stream
 * share one cell holding a "ticked" flag and the waker of the task waiting for
 * the next tick. The callback sets the flag; a poll consumes it. Ticks that fire
 * while nobody polls collapse into one.
 */
module Ticker {
  import opened Wrappers

  /** The task a waker wakes. */
  datatype Waker = Waker(task: nat)

  /** The stream's answer to a poll. `Ready` is `Ready(Some(()))`; the ticker never answers `Ready(None)`. */
  datatype Poll = Ready | Pending

  /** The shared `(Option<Waker>, bool)` cell. */
  datatype Cell = Cell(waker: Option<Waker>, ticked: bool)

  const I32Max: int := 0x7fff_ffff

  /** `i32::try_from(interval.as_millis())`; `None` is the "interval too long" panic. */
  function Timeout(millis: nat): (r: Option<int>)
    ensures r.Some? <==> millis <= I32Max
    ensures r.Some? ==> r.value == millis
  {
    if millis <= I32Max then Some(millis) else None
  }

  /** The interval callback: set the flag and take the stored waker, which is then woken. */
  function Fire(c: Cell): (r: (Cell, Option<Waker>))
    ensures r.0 == Cell(None, true)
    ensures r.1 == c.waker
  {
    (Cell(None, true), c.waker)
  }

  /** `poll_next`: consume the flag, or store the polling task's waker and wait. */
  function PollCell(c: Cell, cx: Waker): (r: (Cell, Poll))
    ensures r.1 == Ready <==> c.ticked
    ensures !r.0.ticked
    ensures r.1 == Pending ==> r.0.waker == Some(cx)
    ensures r.1 == Ready ==> r.0.waker == c.waker
  {
    if c.ticked then (Cell(c.waker, false), Ready)
    else (Cell(Some(cx), false), Pending)
  }

  class Ticker {
    var waker: Option<Waker>
    var ticked: bool

    function State(): Cell
      reads this
    {
      Cell(waker, ticked)
    }

    /** `Ticker::new`: the flag starts set, so the first poll is ready at once. */
    constructor (intervalMillis: nat)
      requires Timeout(intervalMillis).Some?
      ensures State() == Cell(None, true)
    {
      waker := None;
      ticked := true;
    }

    /** The closure `setInterval` runs on every tick; returns the waker it wakes. */
    method Callback() returns (woken: Option<Waker>)
      modifies this
      ensures (State(), woken) == Fire(old(State()))
    {
      ticked := true;
      woken := waker;
      waker := None;
    }

    method PollNext(cx: Waker) returns (p: Poll)
      modifies this
      ensures (State(), p) == PollCell(old(State()), cx)
    {
      if ticked {
        ticked := false;
        p := Ready;
      } else {
        waker := Some(cx);
        p := Pending;
      }
    }
  }

  /** What happens to the cell: an interval tick, or a poll by a task. */
  datatype Event = Tick | PollBy(cx: Waker)

  /** The answers to the polls among `events`, in order, and the final cell. */
  function Run(c: Cell, events: seq<Event>): (r: (Cell, seq<Poll>))
    decreases |events|
  {
    if events == [] then (c, [])
    else match events[0]
      case Tick => Run(Fire(c).0, events[1..])
      case PollBy(cx) =>
        var (c', p) := PollCell(c, cx);
        var rest := Run(c', events[1..]);
        (rest.0, [p] + rest.1)
  }

  function Repeat(k: nat): (r: seq<Event>)
    ensures |r| == k && forall i :: 0 <= i < k ==> r[i] == Tick
  {
    if k == 0 then [] else [Tick] + Repeat(k - 1)
  }

  /** However many ticks fire between two polls, at least one, the next poll is ready and the one after waits. */
  lemma {:induction false} MissedTicksCollapse(c: Cell, k: nat, first: Waker, second: Waker)
    requires k >= 1
    ensures Run(c, Repeat(k) + [PollBy(first), PollBy(second)]).1 == [Ready, Pending]
    decreases k
  {
    if k == 1 {
      var events := [Tick, PollBy(first), PollBy(second)];
      assert Repeat(1) + [PollBy(first), PollBy(second)] == events;
      assert events[1..] == [PollBy(first), PollBy(second)] && events[1..][1..] == [PollBy(second)];
      var c1 := Fire(c).0;
      var c2 := PollCell(c1, first).0;
      assert Run(PollCell(c2, second).0, []).1 == [];
      assert Run(c2, [PollBy(second)]).1 == [Pending];
      assert Run(c1, [PollBy(first), PollBy(second)]).1 == [Ready] + Run(c2, [PollBy(second)]).1;
      assert Run(c, events) == Run(c1, events[1..]);
    } else {
      var events := Repeat(k) + [PollBy(first), PollBy(second)];
      assert events[1..] == Repeat(k - 1) + [PollBy(first), PollBy(second)];
      MissedTicksCollapse(Fire(c).0, k - 1, first, second);
    }
  }

  function CountReady(ps: seq<Poll>): nat
  {
    if ps == [] then 0 else (if ps[0] == Ready then 1 else 0) + CountReady(ps[1..])
  }

  function CountTicks(events: seq<Event>): nat
  {
    if events == [] then 0 else (if events[0] == Tick then 1 else 0) + CountTicks(events[1..])
  }

  /**
   * No burst: the ticker is ready at most once per tick, plus once for a flag
   * already set; a set flag is left over only when no poll consumed the last tick.
   */
  lemma {:induction false} ReadyAtMostOncePerTick(c: Cell, events: seq<Event>)
    ensures CountReady(Run(c, events).1) + (if Run(c, events).0.ticked then 1 else 0)
      <= CountTicks(events) + (if c.ticked then 1 else 0)
    decreases |events|
  {
    if events != [] {
      match events[0]
      case Tick => ReadyAtMostOncePerTick(Fire(c).0, events[1..]);
      case PollBy(cx) => ReadyAtMostOncePerTick(PollCell(c, cx).0, events[1..]);
    }
  }

  /** A task that polled and had to wait is the one woken by the next tick. */
  lemma PendingPollIsWoken(c: Cell, cx: Waker)
    requires !c.ticked
    ensures Fire(PollCell(c, cx).0).1 == Some(cx)
  {
  }
}
