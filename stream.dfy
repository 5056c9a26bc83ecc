/**
 * The per-feed task (src/stream.rs): on every tick, up to three attempts to
 * fetch the feed's archive; a fetched archive is expanded, filtered through the
 * shared seen-name cache and its new products sent on the channel. The channel
 * is the sequence `sent` of messages offered to it, in order.
 */
module Stream {
  import opened Wrappers
  import opened Errors
  import opened Names
  import opened Zip
  import opened Products
  import opened State

  /** What the consumer receives. */
  type Message = Result<Product, Error>

  /** What one `resource.fetch(&client)` followed by `resp.bytes()` gives. */
  datatype Attempt =
    | Failed(error: HttpError)              // the fetch or the body read failed
    | Unchanged                             // `Ok(None)`: not modified
    | Fetched(archive: Option<Archive>)     // a body, and what it opens as

  /** One tick: whether the receiver is gone by then, the clock reading, and the outcome each attempt would have. */
  datatype TickEvent = TickEvent(closed: bool, now: int, attempts: seq<Attempt>)

  const MaxAttempts: nat := 3

  /** The messages `decompress` sends. */
  function DecompressOutput(m: map<string, int>, parsed: Option<Archive>): (r: seq<Message>)
    ensures parsed.None? ==> r == [Err(ArchiveFormat(Invalid))]
    ensures parsed.Some? ==> |r| == |NewNames(m.Keys, Sort(FileNames(parsed.value)))|
  {
    match parsed
    case None => [Err(ArchiveFormat(Invalid))]
    case Some(a) => ExtractAll(a, NewNames(m.Keys, Sort(FileNames(a))))
  }

  /** The cache after `decompress`. */
  function DecompressRegistry(m: map<string, int>, parsed: Option<Archive>, now: int): (r: map<string, int>)
  {
    match parsed
    case None => m
    case Some(a) => Recorded(m, Sort(FileNames(a)), now)
  }

  /** The attempt that ended the retry loop (1 to 3), or 0 when all three failed. */
  function Settled(attempts: seq<Attempt>): (k: nat)
    requires |attempts| >= MaxAttempts
    ensures k <= MaxAttempts
    ensures k == 0 <==> attempts[0].Failed? && attempts[1].Failed? && attempts[2].Failed?
    ensures k > 0 ==> !attempts[k - 1].Failed? && forall j :: 0 <= j < k - 1 ==> attempts[j].Failed?
  {
    if !attempts[0].Failed? then 1
    else if !attempts[1].Failed? then 2
    else if !attempts[2].Failed? then 3
    else 0
  }

  /** The messages a tick sends and the cache after it. */
  function TickEffect(m: map<string, int>, t: TickEvent): (r: (seq<Message>, map<string, int>))
    requires |t.attempts| == MaxAttempts
  {
    var k := Settled(t.attempts);
    if k == 0 then ([Err(Http(t.attempts[2].error))], m)
    else match t.attempts[k - 1]
      case Unchanged => ([], m)
      case Fetched(parsed) => (DecompressOutput(m, parsed), DecompressRegistry(m, parsed, t.now))
  }

  /** A tick settled by attempt `k`: nothing for "unchanged", the decompression of the archive otherwise. */
  lemma SettledTick(m: map<string, int>, t: TickEvent, k: nat)
    requires |t.attempts| == MaxAttempts && 0 < k && Settled(t.attempts) == k
    ensures t.attempts[k - 1].Unchanged? ==> TickEffect(m, t).0 == [] && TickEffect(m, t).1 == m
    ensures t.attempts[k - 1].Fetched? ==>
      && TickEffect(m, t).0 == DecompressOutput(m, t.attempts[k - 1].archive)
      && TickEffect(m, t).1 == DecompressRegistry(m, t.attempts[k - 1].archive, t.now)
  {
  }

  /** The countdown at the top of the loop: `None` when it ends the task, otherwise the next count. */
  function Countdown(cycles: Option<nat>): (r: Option<Option<nat>>)
    ensures r.None? <==> cycles == Some(0)
    ensures cycles.None? ==> r == Some(None)
    ensures cycles.Some? && cycles.value > 0 ==> r == Some(Some(cycles.value - 1))
  {
    match cycles
    case Some(n) => if n == 0 then None else Some(Some(n - 1))
    case None => Some(None)
  }

  /** Everything a task does with a run of ticks. */
  datatype RunResult = RunResult(messages: seq<Message>, registry: map<string, int>, ran: nat, returned: bool)

  predicate WellFormed(ticks: seq<TickEvent>)
  {
    forall i :: 0 <= i < |ticks| ==> |ticks[i].attempts| == MaxAttempts
  }

  /**
   * `run(cycles)` over the ticks it is given: the messages, the cache, how many
   * tick bodies ran, and whether `run` returned (rather than waiting for a
   * further tick).
   */
  function RunSpec(m: map<string, int>, cycles: Option<nat>, ticks: seq<TickEvent>): (r: RunResult)
    requires WellFormed(ticks)
    ensures r.ran <= |ticks|
    ensures cycles.Some? ==> r.ran <= cycles.value
    ensures !r.returned ==> r.ran == |ticks|
    decreases |ticks|
  {
    match Countdown(cycles)
    case None => RunResult([], m, 0, true)
    case Some(next) =>
      if ticks == [] then RunResult([], m, 0, false)
      else if ticks[0].closed then RunResult([], m, 0, true)
      else
        var (msgs, m') := TickEffect(m, ticks[0]);
        var rest := RunSpec(m', next, ticks[1..]);
        RunResult(msgs + rest.messages, rest.registry, rest.ran + 1, rest.returned)
  }

  /** The clock never runs backwards from one tick to the next. */
  predicate Chronological(m: map<string, int>, ticks: seq<TickEvent>)
  {
    && (|ticks| > 0 ==> NotAfter(m, ticks[0].now))
    && forall i, j :: 0 <= i < j < |ticks| ==> ticks[i].now <= ticks[j].now
  }

  class TaskState {
    const state: StreamState
    var sent: seq<Message>

    constructor (state: StreamState)
      ensures this.state == state && sent == []
    {
      this.state := state;
      sent := [];
    }

    /** `decompress`: send every new product, or the one error when the archive cannot be opened. */
    method Decompress(parsed: Option<Archive>, now: int)
      requires NotAfter(state.lastSeenAt, now)
      modifies this, state
      ensures sent == old(sent) + DecompressOutput(old(state.lastSeenAt), parsed)
      ensures state.lastSeenAt == DecompressRegistry(old(state.lastSeenAt), parsed, now)
    {
      var result := state.NewProductsIn(parsed, now);
      if result.Err? {
        sent := sent + [Err(result.error)];
        return;
      }
      SendAll(result.value);
    }

    /** `for product_result in products { tx.send(product_result) }`. */
    method SendAll(msgs: seq<Message>)
      modifies this
      ensures sent == old(sent) + msgs
    {
      for i := 0 to |msgs|
        invariant sent == old(sent) + msgs[..i]
      {
        assert msgs[..i + 1] == msgs[..i] + [msgs[i]];
        sent := sent + [msgs[i]];
      }
      assert msgs[..|msgs|] == msgs;
    }

    /** `fetch_once`: a failed fetch is an error; an archive, good or bad, is decompressed and counts as success. */
    method FetchOnce(attempt: Attempt, now: int) returns (r: Result<(), Error>)
      requires NotAfter(state.lastSeenAt, now)
      modifies this, state
      ensures r.Err? <==> attempt.Failed?
      ensures attempt.Failed? ==> r.error == Http(attempt.error)
      ensures !attempt.Fetched? ==> sent == old(sent) && state.lastSeenAt == old(state.lastSeenAt)
      ensures attempt.Fetched? ==>
        && sent == old(sent) + DecompressOutput(old(state.lastSeenAt), attempt.archive)
        && state.lastSeenAt == DecompressRegistry(old(state.lastSeenAt), attempt.archive, now)
    {
      match attempt
      case Failed(e) => r := Err(Http(e));
      case Unchanged => r := Ok(());
      case Fetched(parsed) =>
        Decompress(parsed, now);
        r := Ok(());
    }

    /**
     * The `for attempt in 1..=3` loop of one tick: retry after a failure,
     * sleeping before each retry, and send the third failure if all fail.
     */
    method RetryTick(t: TickEvent) returns (used: nat, slept: nat)
      requires |t.attempts| == MaxAttempts
      requires NotAfter(state.lastSeenAt, t.now)
      modifies this, state
      ensures used == (if Settled(t.attempts) == 0 then MaxAttempts else Settled(t.attempts))
      ensures slept == used - 1
      ensures sent == old(sent) + TickEffect(old(state.lastSeenAt), t).0
      ensures state.lastSeenAt == TickEffect(old(state.lastSeenAt), t).1
    {
      used, slept := 0, 0;
      for attempt := 1 to MaxAttempts + 1
        invariant used == attempt - 1 && slept == used && used < MaxAttempts
        invariant forall j :: 0 <= j < used ==> t.attempts[j].Failed?
        invariant sent == old(sent) && state.lastSeenAt == old(state.lastSeenAt)
      {
        used := attempt;
        var r := FetchOnce(t.attempts[attempt - 1], t.now);
        if r.Err? {
          if attempt == MaxAttempts {
            sent := sent + [Err(r.error)];
            assert Settled(t.attempts) == 0;
          } else {
            slept := slept + 1;
            continue;
          }
        } else {
          assert Settled(t.attempts) == attempt;
          SettledTick(old(state.lastSeenAt), t, attempt);
        }
        break;
      }
    }
  
    /**
     * `run(cycles)` driven by `ticks`: count down, wait for a tick, return if
     * the receiver is gone, otherwise run the retry loop. `ran` counts the tick
     * bodies run; `returned` is false when the ticks ran out while `run` was
     * still waiting for the next one.
     */
    method Run(cycles: Option<nat>, ticks: seq<TickEvent>) returns (ran: nat, returned: bool)
      requires WellFormed(ticks)
      requires Chronological(state.lastSeenAt, ticks)
      modifies this, state
      ensures sent == old(sent) + RunSpec(old(state.lastSeenAt), cycles, ticks).messages
      ensures state.lastSeenAt == RunSpec(old(state.lastSeenAt), cycles, ticks).registry
      ensures ran == RunSpec(old(state.lastSeenAt), cycles, ticks).ran
      ensures returned == RunSpec(old(state.lastSeenAt), cycles, ticks).returned
    {
      ghost var whole := RunSpec(state.lastSeenAt, cycles, ticks);
      var countdown := cycles;
      ran := 0;
      assert ticks[0..] == ticks;
      while true
        invariant ran <= |ticks| && WellFormed(ticks[ran..])
        invariant Chronological(state.lastSeenAt, ticks[ran..])
        invariant Continues(whole, old(sent), sent, ran, RunSpec(state.lastSeenAt, countdown, ticks[ran..]))
        decreases |ticks| - ran
      {
        var step := Countdown(countdown);
        if step.None? {
          return ran, true;
        }
        if ran == |ticks| {
          // No further tick arrives: `run` is still awaiting `ticker.tick()`.
          return ran, false;
        }
        var t := ticks[ran];
        if t.closed {
          return ran, true;
        }
        ghost var before, sentBefore := state.lastSeenAt, sent;
        ghost var rest := RunSpec(before, countdown, ticks[ran..]);
        var used, slept := RetryTick(t);
        RunStep(before, countdown, ticks[ran..]);
        TickKeepsChronology(before, ticks[ran..]);
        assert ticks[ran..][1..] == ticks[ran + 1..];
        ContinuesStep(whole, old(sent), sentBefore, sent, ran, rest, RunSpec(state.lastSeenAt, step.value, ticks[ran + 1..]), before, t);
        countdown := step.value;
        ran := ran + 1;
      }
    }
  }

  /** The whole run equals what was done so far followed by what `rest` still does. */
  ghost predicate Continues(whole: RunResult, sent0: seq<Message>, sent: seq<Message>, ran: nat, rest: RunResult)
  {
    && sent0 + whole.messages == sent + rest.messages
    && whole.registry == rest.registry
    && whole.ran == ran + rest.ran
    && whole.returned == rest.returned
  }

  lemma ContinuesStep(whole: RunResult, sent0: seq<Message>, before: seq<Message>, after: seq<Message>, ran: nat,
                      rest: RunResult, rest': RunResult, m: map<string, int>, t: TickEvent)
    requires Continues(whole, sent0, before, ran, rest)
    requires |t.attempts| == MaxAttempts
    requires after == before + TickEffect(m, t).0
    requires rest == RunResult(TickEffect(m, t).0 + rest'.messages, rest'.registry, rest'.ran + 1, rest'.returned)
    ensures Continues(whole, sent0, after, ran + 1, rest')
  {
  }

  /** One tick of `RunSpec`. */
  lemma RunStep(m: map<string, int>, cycles: Option<nat>, ticks: seq<TickEvent>)
    requires WellFormed(ticks) && ticks != [] && !ticks[0].closed && Countdown(cycles).Some?
    ensures WellFormed(ticks[1..])
    ensures RunSpec(m, cycles, ticks) ==
      var rest := RunSpec(TickEffect(m, ticks[0]).1, Countdown(cycles).value, ticks[1..]);
      RunResult(TickEffect(m, ticks[0]).0 + rest.messages, rest.registry, rest.ran + 1, rest.returned)
  {
  }

  /** A tick stamps no instant after its own clock reading, so the remaining ticks stay in order with the cache. */
  lemma TickKeepsChronology(m: map<string, int>, ticks: seq<TickEvent>)
    requires WellFormed(ticks) && ticks != [] && Chronological(m, ticks)
    ensures Chronological(TickEffect(m, ticks[0]).1, ticks[1..])
  {
  }

  // ---------------------------------------------------------------------------
  // How long `run` goes on

  /** The position of the first tick at which the receiver is gone, or the number of ticks when there is none. */
  function FirstClosed(ticks: seq<TickEvent>): (k: nat)
    ensures k <= |ticks|
    ensures forall i :: 0 <= i < k ==> !ticks[i].closed
    ensures k < |ticks| ==> ticks[k].closed
  {
    if ticks == [] || ticks[0].closed then 0 else 1 + FirstClosed(ticks[1..])
  }

  /**
   * `run(Some(n))` runs `n` tick bodies unless the receiver goes away first,
   * and it keeps waiting only when the ticks ran out before both.
   */
  lemma {:induction false} CountedRun(m: map<string, int>, n: nat, ticks: seq<TickEvent>)
    requires WellFormed(ticks)
    ensures RunSpec(m, Some(n), ticks).ran == (if n < FirstClosed(ticks) then n else FirstClosed(ticks))
    ensures !RunSpec(m, Some(n), ticks).returned <==> FirstClosed(ticks) == |ticks| < n
    decreases |ticks|
  {
    if n > 0 && ticks != [] && !ticks[0].closed {
      var rest := RunSpec(TickEffect(m, ticks[0]).1, Some(n - 1), ticks[1..]);
      CountedRun(TickEffect(m, ticks[0]).1, n - 1, ticks[1..]);
      assert RunSpec(m, Some(n), ticks).ran == rest.ran + 1;
      assert RunSpec(m, Some(n), ticks).returned == rest.returned;
      assert FirstClosed(ticks) == 1 + FirstClosed(ticks[1..]);
    }
  }

  /** `run(None)` runs a tick body for every tick until the receiver is gone, and returns only then. */
  lemma {:induction false} UnboundedRun(m: map<string, int>, ticks: seq<TickEvent>)
    requires WellFormed(ticks)
    ensures RunSpec(m, None, ticks).ran == FirstClosed(ticks)
    ensures RunSpec(m, None, ticks).returned <==> FirstClosed(ticks) < |ticks|
    decreases |ticks|
  {
    if ticks != [] && !ticks[0].closed {
      UnboundedRun(TickEffect(m, ticks[0]).1, ticks[1..]);
    }
  }

  /** A receiver gone at the first tick: no attempt, no message, the cache untouched. */
  lemma ClosedBeforeAnyAttempt(m: map<string, int>, cycles: Option<nat>, ticks: seq<TickEvent>)
    requires WellFormed(ticks) && ticks != [] && ticks[0].closed
    ensures RunSpec(m, cycles, ticks) == RunResult([], m, 0, true)
  {
  }

  // ---------------------------------------------------------------------------
  // What a tick sends

  predicate IsHttpError(msg: Message)
  {
    msg.Err? && msg.error.Http?
  }

  /** The number of HTTP errors among the messages. */
  function HttpErrors(msgs: seq<Message>): (n: nat)
    ensures n <= |msgs|
    ensures n == 0 <==> forall i :: 0 <= i < |msgs| ==> !IsHttpError(msgs[i])
  {
    if msgs == [] then 0
    else (if IsHttpError(msgs[0]) then 1 else 0) + HttpErrors(msgs[1..])
  }

  /** Expanding an archive never yields an HTTP error. */
  lemma DecompressSendsNoHttpError(m: map<string, int>, parsed: Option<Archive>)
    ensures HttpErrors(DecompressOutput(m, parsed)) == 0
  {
  }

  /**
   * A tick reports an HTTP error exactly when all three attempts fail, and then
   * only the third attempt's error, with the cache untouched.
   */
  lemma TickErrors(m: map<string, int>, t: TickEvent)
    requires |t.attempts| == MaxAttempts
    ensures HttpErrors(TickEffect(m, t).0) == (if Settled(t.attempts) == 0 then 1 else 0)
    ensures Settled(t.attempts) == 0 ==> TickEffect(m, t) == ([Err(Http(t.attempts[2].error))], m)
  {
  }

  /** A tick whose settling attempt found the archive unchanged sends nothing and leaves the cache alone. */
  lemma UnchangedTickIsQuiet(m: map<string, int>, t: TickEvent)
    requires |t.attempts| == MaxAttempts
    requires Settled(t.attempts) > 0 && t.attempts[Settled(t.attempts) - 1].Unchanged?
    ensures TickEffect(m, t) == ([], m)
  {
  }

  /** How many of the first `k` ticks had all three attempts fail. */
  function AllFailedTicks(ticks: seq<TickEvent>, k: nat): (n: nat)
    requires WellFormed(ticks) && k <= |ticks|
    ensures n <= k
  {
    if k == 0 then 0
    else (if Settled(ticks[0].attempts) == 0 then 1 else 0) + AllFailedTicks(ticks[1..], k - 1)
  }

  /** Over a whole run the consumer sees one HTTP error per tick that exhausted its attempts, and no other. */
  lemma {:induction false} RunHttpErrors(m: map<string, int>, cycles: Option<nat>, ticks: seq<TickEvent>)
    requires WellFormed(ticks)
    ensures HttpErrors(RunSpec(m, cycles, ticks).messages) == AllFailedTicks(ticks, RunSpec(m, cycles, ticks).ran)
    decreases |ticks|
  {
    if Countdown(cycles).Some? && ticks != [] && !ticks[0].closed {
      var effect := TickEffect(m, ticks[0]);
      RunStep(m, cycles, ticks);
      RunHttpErrors(effect.1, Countdown(cycles).value, ticks[1..]);
      TickErrors(m, ticks[0]);
      CountStep(ticks, effect.0, RunSpec(effect.1, Countdown(cycles).value, ticks[1..]), RunSpec(m, cycles, ticks));
    } else {
      assert RunSpec(m, cycles, ticks).messages == [] && RunSpec(m, cycles, ticks).ran == 0;
    }
  }

  lemma CountStep(ticks: seq<TickEvent>, first: seq<Message>, rest: RunResult, whole: RunResult)
    requires WellFormed(ticks) && ticks != [] && rest.ran < |ticks|
    requires whole.messages == first + rest.messages && whole.ran == rest.ran + 1
    requires HttpErrors(first) == (if Settled(ticks[0].attempts) == 0 then 1 else 0)
    requires HttpErrors(rest.messages) == AllFailedTicks(ticks[1..], rest.ran)
    ensures HttpErrors(whole.messages) == AllFailedTicks(ticks, whole.ran)
  {
  }

  /**
   * An archive that opens yields one message per name it lists that the cache
   * did not hold, each such name once, in sorted order, each the product made
   * from the member of that name.
   */
  lemma DecompressNewInOrder(m: map<string, int>, a: Archive)
    ensures var names := NewNames(m.Keys, Sort(FileNames(a)));
      && Sorted(names)
      && (forall x :: x in names <==> x in FileNames(a) && x !in m)
      && (forall i, j :: 0 <= i < j < |names| ==> names[i] != names[j])
      && |DecompressOutput(m, Some(a))| == |names|
      && forall i :: 0 <= i < |names| ==> DecompressOutput(m, Some(a))[i] == New(ByName(a, names[i]))
  {
    var listed := Sort(FileNames(a));
    NewNamesSorted(m.Keys, listed);
    NewNamesExactlyOnce(m.Keys, listed);
    assert forall x :: x in listed <==> x in multiset(listed);
    assert forall x :: x in FileNames(a) <==> x in multiset(FileNames(a));
  }

  /** An archive that does not open yields the one format error, and the cache is untouched. */
  lemma DecompressUnreadable(m: map<string, int>, now: int)
    ensures DecompressOutput(m, None) == [Err(ArchiveFormat(Invalid))]
    ensures DecompressRegistry(m, None, now) == m
  {
  }
}
