/**
 * Conditional retrieval of one feed (src/fetch.rs). `fetch` sends the validators
 * it holds as `If-None-Match` / `If-Modified-Since` (sections 3.2 and 3.3 of
 * RFC 7232), treats `304 Not Modified` as "unchanged" when it sent one (section
 * 4.1), and otherwise captures the `ETag` and `Last-Modified` of the response
 * (sections 2.3 and 2.2) as the new validators. `FetchStream` drives such
 * fetches from a ticker and hands their bodies out one poll at a time.
 */
module Fetch {
  import opened Wrappers
  import opened Errors
  import opened Ticker

  /** The validators held between fetches; `Default` is the empty pair. */
  datatype FetchState = FetchState(etag: Option<string>, lastModified: Option<string>)

  const Default: FetchState := FetchState(None, None)

  /** `Result<Option<(Bytes, FetchState)>, Error>`: `Ok(None)` means not modified. */
  type FetchResult = Result<Option<(seq<byte>, FetchState)>, Error>

  datatype Header = Header(name: string, value: string)

  const IfNoneMatch: string := "if-none-match"
  const IfModifiedSince: string := "if-modified-since"

  /** Whether the request carries at least one validator. */
  predicate HoldsValidator(s: FetchState)
  {
    s.etag.Some? || s.lastModified.Some?
  }

  /** The headers the request is built with. */
  function ConditionalHeaders(s: FetchState): (r: seq<Header>)
    ensures forall v :: Header(IfNoneMatch, v) in r <==> s.etag == Some(v)
    ensures forall v :: Header(IfModifiedSince, v) in r <==> s.lastModified == Some(v)
    ensures forall h :: h in r ==> h.name == IfNoneMatch || h.name == IfModifiedSince
    ensures r == [] <==> !HoldsValidator(s)
  {
    var req := [];
    var req := if s.etag.Some? then req + [Header(IfNoneMatch, s.etag.value)] else req;
    var req := if s.lastModified.Some? then req + [Header(IfModifiedSince, s.lastModified.value)] else req;
    req
  }

  /** A header value `to_str` accepts: tabs and visible ASCII only. */
  predicate HeaderText(v: seq<byte>)
  {
    forall i :: 0 <= i < |v| ==> v[i] == 9 || 32 <= v[i] <= 126
  }

  /** `HeaderValue::to_str`: the value as text, or `None` when it holds other bytes. */
  function ToStr(v: seq<byte>): (r: Option<string>)
    ensures r.Some? <==> HeaderText(v)
    ensures r.Some? ==> |r.value| == |v| && forall i :: 0 <= i < |v| ==> r.value[i] as int == v[i] as int
  {
    if HeaderText(v) then Some(seq(|v|, i requires 0 <= i < |v| => v[i] as int as char)) else None
  }

  /** The validators stored are text `to_str` produced, so they can be sent back as headers. */
  predicate SendableState(s: FetchState)
  {
    && (s.etag.Some? ==> forall i :: 0 <= i < |s.etag.value| ==> s.etag.value[i] == '\t' || ' ' <= s.etag.value[i] <= '~')
    && (s.lastModified.Some? ==> forall i :: 0 <= i < |s.lastModified.value| ==> s.lastModified.value[i] == '\t' || ' ' <= s.lastModified.value[i] <= '~')
  }

  /** A response: its status, the raw `ETag` and `Last-Modified` values if present, and the body or `None` when reading it fails. */
  datatype Response = Response(status: int, etag: Option<seq<byte>>, lastModified: Option<seq<byte>>, body: Option<seq<byte>>)

  /** What `client.execute` yields: no response at all, or a response. */
  datatype Exchange = Unanswered | Answered(response: Response)

  /** `error_for_status` refuses client and server errors. */
  predicate ErrorStatus(status: int)
  {
    400 <= status <= 599
  }

  const NotModified: int := 304

  /** The validators a response reports. */
  function Validators(resp: Response): (s: FetchState)
    ensures SendableState(s)
    ensures s.etag.Some? <==> resp.etag.Some? && HeaderText(resp.etag.value)
    ensures s.lastModified.Some? <==> resp.lastModified.Some? && HeaderText(resp.lastModified.value)
    ensures resp.etag.Some? ==> s.etag == ToStr(resp.etag.value)
    ensures resp.lastModified.Some? ==> s.lastModified == ToStr(resp.lastModified.value)
  {
    FetchState(
      if resp.etag.Some? then ToStr(resp.etag.value) else None,
      if resp.lastModified.Some? then ToStr(resp.lastModified.value) else None)
  }

  /** `fetch(url, client, fetch_state)` given what the exchange with the server produced. */
  function Fetch(state: FetchState, exchange: Exchange): (r: FetchResult)
    ensures exchange.Unanswered? ==> r == Err(Http(Transport))
    ensures exchange.Answered? && ErrorStatus(exchange.response.status) ==> r == Err(Http(Status(exchange.response.status)))
    ensures r == Ok(None) <==> exchange.Answered? && exchange.response.status == NotModified && HoldsValidator(state)
    ensures r.Ok? && r.value.Some? ==>
      && exchange.Answered?
      && exchange.response.body == Some(r.value.value.0)
      && r.value.value.1 == Validators(exchange.response)
    ensures (exchange.Answered? && !ErrorStatus(exchange.response.status)
             && !(exchange.response.status == NotModified && HoldsValidator(state))) ==>
      r == (if exchange.response.body.Some?
            then Ok(Some((exchange.response.body.value, Validators(exchange.response))))
            else Err(Http(Body)))
  {
    match exchange
    case Unanswered => Err(Http(Transport))
    case Answered(resp) =>
      if ErrorStatus(resp.status) then Err(Http(Status(resp.status)))
      else if HoldsValidator(state) && resp.status == NotModified then
        // The body, if any, is drained and read errors are ignored.
        Ok(None)
      else
        var newState := Validators(resp);
        match resp.body
        case None => Err(Http(Body))
        case Some(body) => Ok(Some((body, newState)))
  }

  /** The new validators depend on the response only, never on the validators sent. */
  lemma FreshStateIgnoresOldState(s1: FetchState, s2: FetchState, exchange: Exchange)
    requires Fetch(s1, exchange).Ok? && Fetch(s1, exchange).value.Some?
    requires Fetch(s2, exchange).Ok? && Fetch(s2, exchange).value.Some?
    ensures Fetch(s1, exchange) == Fetch(s2, exchange)
  {
  }

  /** Without validators a 304 is taken as fresh content, never as "unchanged". */
  lemma NoValidatorsNeverUnchanged(exchange: Exchange)
    requires exchange.Answered? && exchange.response.status == NotModified
    ensures Fetch(Default, exchange) != Ok(None)
    ensures exchange.response.body.Some? ==>
      Fetch(Default, exchange) == Ok(Some((exchange.response.body.value, Validators(exchange.response))))
  {
  }

  /** Every state `fetch` hands back can be sent again, so building the next request cannot fail on it. */
  lemma FetchedStateSendable(state: FetchState, exchange: Exchange)
    requires Fetch(state, exchange).Ok? && Fetch(state, exchange).value.Some?
    ensures SendableState(Fetch(state, exchange).value.value.1)
    ensures ConditionalHeaders(Fetch(state, exchange).value.value.1) == [] <==>
      !(exchange.response.etag.Some? && HeaderText(exchange.response.etag.value)) &&
      !(exchange.response.lastModified.Some? && HeaderText(exchange.response.lastModified.value))
  {
  }

  // ---------------------------------------------------------------------------
  // FetchStream

  /** An in-flight fetch future: which one it is, and the validators it was started with. */
  datatype InFlight = InFlight(id: nat, sentWith: FetchState)

  /** The fetches of `fs[lo..]` that are still pending when `ready` says which have an exchange to report. */
  function NotReady(fs: seq<InFlight>, ready: map<nat, Exchange>, lo: nat): (r: seq<InFlight>)
    ensures forall f :: f in r ==> f in fs && f.id !in ready
    ensures forall k :: lo <= k < |fs| && fs[k].id !in ready ==> fs[k] in r
    decreases |fs| - lo
  {
    if lo >= |fs| then [] else (if fs[lo].id in ready then [] else [fs[lo]]) + NotReady(fs, ready, lo + 1)
  }

  /** The ascending indices of the ready fetches among `fs[..n]`. */
  function ReadyIndices(fs: seq<InFlight>, ready: map<nat, Exchange>, n: nat): (r: seq<nat>)
    requires n <= |fs|
    ensures forall k :: 0 <= k < |r| ==> r[k] < n && fs[r[k]].id in ready
    ensures forall i :: 0 <= i < n && fs[i].id in ready ==> i in r
    ensures forall k, l :: 0 <= k < l < |r| ==> r[k] < r[l]
  {
    if n == 0 then []
    else ReadyIndices(fs, ready, n - 1) + (if fs[n - 1].id in ready then [n - 1] else [])
  }

  /**
   * The validator state and result queue after the ready fetches of `fs` are
   * taken in index order: a fresh body is queued and its validators adopted,
   * an error is queued, "not modified" leaves both alone.
   */
  function Absorb(state: FetchState, results: seq<Result<seq<byte>, Error>>, fs: seq<InFlight>, ready: map<nat, Exchange>)
    : (r: (FetchState, seq<Result<seq<byte>, Error>>))
    ensures |results| <= |r.1| <= |results| + |fs| && r.1[..|results|] == results
  {
    if fs == [] then (state, results)
    else
      var (s, rs) := Absorb(state, results, fs[..|fs| - 1], ready);
      var f := fs[|fs| - 1];
      if f.id !in ready then (s, rs)
      else match Fetch(f.sentWith, ready[f.id])
        case Ok(Some((body, next))) => (next, rs + [Ok(body)])
        case Ok(None) => (s, rs)
        case Err(e) => (s, rs + [Err(e)])
  }

  /** What one fetch adds to the result queue on this poll: its body, its error, or nothing when it is pending or not modified. */
  function Queued(f: InFlight, ready: map<nat, Exchange>): (r: seq<Result<seq<byte>, Error>>)
    ensures |r| <= 1
    ensures r == [] <==> f.id !in ready || Fetch(f.sentWith, ready[f.id]) == Ok(None)
    ensures r != [] && r[0].Ok? ==> exists next :: Fetch(f.sentWith, ready[f.id]) == Ok(Some((r[0].value, next)))
    ensures r != [] && r[0].Err? ==> Fetch(f.sentWith, ready[f.id]) == Err(r[0].error)
  {
    if f.id !in ready then []
    else match Fetch(f.sentWith, ready[f.id])
      case Ok(Some((body, _))) => [Ok(body)]
      case Ok(None) => []
      case Err(e) => [Err(e)]
  }

  /** The results the fetches of `fs` report on this poll, first fetch first. */
  function Reported(fs: seq<InFlight>, ready: map<nat, Exchange>): (r: seq<Result<seq<byte>, Error>>)
  {
    if fs == [] then [] else Queued(fs[0], ready) + Reported(fs[1..], ready)
  }

  lemma {:induction false} ReportedAppend(fs: seq<InFlight>, f: InFlight, ready: map<nat, Exchange>)
    ensures Reported(fs + [f], ready) == Reported(fs, ready) + Queued(f, ready)
  {
    if fs == [] {
      assert [f][1..] == [];
      assert fs + [f] == [f];
    } else {
      assert (fs + [f])[1..] == fs[1..] + [f];
      ReportedAppend(fs[1..], f, ready);
    }
  }

  /**
   * The queue after a poll is the old queue followed by exactly what the ready
   * fetches report, in index order: a body for fresh content, the error for a
   * failure, nothing for "not modified".
   */
  lemma {:induction false} AbsorbQueuesReported(state: FetchState, results: seq<Result<seq<byte>, Error>>, fs: seq<InFlight>, ready: map<nat, Exchange>)
    ensures Absorb(state, results, fs, ready).1 == results + Reported(fs, ready)
  {
    if fs != [] {
      var prefix, last := fs[..|fs| - 1], fs[|fs| - 1];
      AbsorbQueuesReported(state, results, prefix, ready);
      ReportedAppend(prefix, last, ready);
      assert prefix + [last] == fs;
    }
  }

  /** Fetch `i` of `fs` is ready and brought fresh content. */
  predicate FreshAt(fs: seq<InFlight>, ready: map<nat, Exchange>, i: int)
    requires 0 <= i < |fs|
  {
    fs[i].id in ready && Fetch(fs[i].sentWith, ready[fs[i].id]).Ok? && Fetch(fs[i].sentWith, ready[fs[i].id]).value.Some?
  }

  /**
   * The validator state changes only through fresh content, and the last fresh
   * fetch in index order wins.
   */
  lemma {:induction false} AbsorbLastFreshWins(state: FetchState, results: seq<Result<seq<byte>, Error>>, fs: seq<InFlight>, ready: map<nat, Exchange>)
    ensures (forall i :: 0 <= i < |fs| ==> !FreshAt(fs, ready, i)) ==> Absorb(state, results, fs, ready).0 == state
    ensures forall i :: 0 <= i < |fs| && FreshAt(fs, ready, i) && (forall j :: i < j < |fs| ==> !FreshAt(fs, ready, j)) ==>
      Absorb(state, results, fs, ready).0 == Fetch(fs[i].sentWith, ready[fs[i].id]).value.value.1
  {
    if fs != [] {
      var prefix := fs[..|fs| - 1];
      AbsorbLastFreshWins(state, results, prefix, ready);
      forall i | 0 <= i < |prefix| ensures FreshAt(prefix, ready, i) == FreshAt(fs, ready, i) {
        assert prefix[i] == fs[i];
      }
      var n := |fs| - 1;
      var r := Absorb(state, results, fs, ready);
      var before := Absorb(state, results, prefix, ready);
      if FreshAt(fs, ready, n) {
        assert r.0 == Fetch(fs[n].sentWith, ready[fs[n].id]).value.value.1;
      } else {
        assert r.0 == before.0;
      }
    }
  }

  /** `xs[lo..]` without the positions in `gone`. */
  function Keep<T>(xs: seq<T>, gone: set<nat>, lo: nat): (r: seq<T>)
    decreases |xs| - lo
  {
    if lo >= |xs| then [] else (if lo in gone then [] else [xs[lo]]) + Keep(xs, gone, lo + 1)
  }

  lemma {:induction false} KeepUnaffected<T>(xs: seq<T>, gone: set<nat>, extra: nat, lo: nat)
    requires extra < lo
    ensures Keep(xs, gone + {extra}, lo) == Keep(xs, gone, lo)
    decreases |xs| - lo
  {
    if lo < |xs| { KeepUnaffected(xs, gone, extra, lo + 1); }
  }

  lemma {:induction false} KeepPrefix<T>(xs: seq<T>, gone: set<nat>, lo: nat, hi: nat)
    requires lo <= hi <= |xs|
    requires forall g :: g in gone ==> g < lo || g >= hi
    ensures Keep(xs, gone, lo) == xs[lo..hi] + Keep(xs, gone, hi)
    decreases hi - lo
  {
    if lo < hi { KeepPrefix(xs, gone, lo + 1, hi); }
  }

  /**
   * `for index in to_remove.into_iter().rev() { fetches.remove(index) }`:
   * removing the ascending indices from the highest down leaves exactly the
   * other elements, in their order.
   */
  method RemoveDescending(xs: seq<InFlight>, toRemove: seq<nat>) returns (kept: seq<InFlight>)
    requires forall k :: 0 <= k < |toRemove| ==> toRemove[k] < |xs|
    requires forall k, l :: 0 <= k < l < |toRemove| ==> toRemove[k] < toRemove[l]
    ensures kept == Keep(xs, set k | 0 <= k < |toRemove| :: toRemove[k], 0)
  {
    kept := xs;
    var j := |toRemove|;
    assert (set k | j <= k < |toRemove| :: toRemove[k]) == {};
    assert Keep(xs, {}, 0) == xs by { KeepPrefix(xs, {}, 0, |xs|); assert xs[0..|xs|] == xs; }
    while j > 0
      invariant 0 <= j <= |toRemove|
      invariant kept == Keep(xs, set k | j <= k < |toRemove| :: toRemove[k], 0)
    {
      j := j - 1;
      var index := toRemove[j];
      var gone := set k | j + 1 <= k < |toRemove| :: toRemove[k];
      assert (set k | j <= k < |toRemove| :: toRemove[k]) == gone + {index};
      RemoveOne(xs, gone, index);
      kept := kept[..index] + kept[index + 1..];
    }
  }

  /** Removing position `index` of what is kept, below every position already gone, drops `xs[index]` too. */
  lemma RemoveOne<T>(xs: seq<T>, gone: set<nat>, index: nat)
    requires index < |xs|
    requires forall g :: g in gone ==> g > index
    ensures |Keep(xs, gone, 0)| > index
    ensures Keep(xs, gone, 0)[..index] + Keep(xs, gone, 0)[index + 1..] == Keep(xs, gone + {index}, 0)
  {
    var kept, tail := Keep(xs, gone, 0), Keep(xs, gone, index + 1);
    KeepPrefix(xs, gone, 0, index + 1);
    assert kept == xs[0..index + 1] + tail;
    KeepPrefix(xs, gone + {index}, 0, index);
    assert Keep(xs, gone + {index}, index) == Keep(xs, gone + {index}, index + 1);
    KeepUnaffected(xs, gone, index, index + 1);
    assert Keep(xs, gone + {index}, 0) == xs[0..index] + tail;
    assert kept[..index] == xs[0..index];
    assert kept[index + 1..] == tail;
  }

  /** Removing the ready indices leaves the not-ready fetches in order. */
  lemma {:induction false} KeepNotReady(fs: seq<InFlight>, ready: map<nat, Exchange>, lo: nat)
    requires lo <= |fs|
    ensures Keep(fs, (set k: nat | k < |fs| && fs[k].id in ready), lo) == NotReady(fs, ready, lo)
    decreases |fs| - lo
  {
    if lo < |fs| {
      var gone := set k: nat | k < |fs| && fs[k].id in ready;
      KeepNotReady(fs, ready, lo + 1);
      assert lo in gone <==> fs[lo].id in ready;
      assert Keep(fs, gone, lo) == (if lo in gone then [] else [fs[lo]]) + Keep(fs, gone, lo + 1);
    }
  }

  /**
   * The loop of `poll_next` over the in-flight fetches: note the index of each
   * ready one and take its result, in index order.
   */
  method PollFetches(state: FetchState, results: seq<Result<seq<byte>, Error>>, all: seq<InFlight>, ready: map<nat, Exchange>)
    returns (state': FetchState, results': seq<Result<seq<byte>, Error>>, toRemove: seq<nat>)
    ensures (state', results') == Absorb(state, results, all, ready)
    ensures toRemove == ReadyIndices(all, ready, |all|)
  {
    state', results', toRemove := state, results, [];
    for i := 0 to |all|
      invariant toRemove == ReadyIndices(all, ready, i)
      invariant (state', results') == Absorb(state, results, all[..i], ready)
    {
      var f := all[i];
      assert all[..i + 1][..i] == all[..i];
      if f.id in ready {
        toRemove := toRemove + [i];
        match Fetch(f.sentWith, ready[f.id])
        case Ok(Some((body, next))) =>
          state' := next;
          results' := results' + [Ok(body)];
        case Ok(None) =>
        case Err(e) =>
          results' := results' + [Err(e)];
      }
    }
    assert all[..|all|] == all;
  }

  /** Removing the indices of the ready fetches leaves exactly the not-ready ones, in order. */
  lemma RemovingReadyLeavesNotReady(all: seq<InFlight>, ready: map<nat, Exchange>)
    ensures
      var toRemove := ReadyIndices(all, ready, |all|);
      Keep(all, set k | 0 <= k < |toRemove| :: toRemove[k], 0) == NotReady(all, ready, 0)
  {
    var toRemove := ReadyIndices(all, ready, |all|);
    var removed := set k | 0 <= k < |toRemove| :: toRemove[k];
    assert removed == (set k: nat | k < |all| && all[k].id in ready) by {
      forall k: nat | k < |all| && all[k].id in ready ensures k in removed {
        var n :| 0 <= n < |toRemove| && toRemove[n] == k;
      }
    }
    KeepNotReady(all, ready, 0);
  }

  /**
   * Each in-flight fetch is a distinct future: identities strictly ascend in
   * start order and lie below the next one to be handed out, so `ready` (keyed
   * by identity) never answers two fetches with one exchange.
   */
  predicate IdsValid(fs: seq<InFlight>, nextId: nat)
  {
    && Ascending(fs)
    && (forall i :: 0 <= i < |fs| ==> fs[i].id < nextId)
  }

  predicate Ascending(fs: seq<InFlight>)
  {
    forall i, j :: 0 <= i < j < |fs| ==> fs[i].id < fs[j].id
  }

  /** Every identity in `fs` is at least `id`. */
  predicate AtLeast(fs: seq<InFlight>, id: nat)
  {
    forall i :: 0 <= i < |fs| ==> id <= fs[i].id
  }

  /** Putting a fetch in front of later, ascending ones keeps them ascending. */
  lemma ConsAscending(f: InFlight, rest: seq<InFlight>)
    requires Ascending(rest) && AtLeast(rest, f.id + 1)
    ensures Ascending([f] + rest) && AtLeast([f] + rest, f.id)
  {
    var r := [f] + rest;
    forall i | 0 <= i < |r| ensures f.id <= r[i].id {
      if i > 0 { assert r[i] == rest[i - 1]; }
    }
    forall i, j | 0 <= i < j < |r| ensures r[i].id < r[j].id {
      assert r[j] == rest[j - 1];
      if i > 0 { assert r[i] == rest[i - 1]; }
    }
  }

  /** The pending fetches of `fs[lo..]` keep ascending identities, none below that of `fs[lo]`. */
  lemma {:induction false} NotReadyAscending(fs: seq<InFlight>, ready: map<nat, Exchange>, lo: nat)
    requires Ascending(fs)
    ensures Ascending(NotReady(fs, ready, lo))
    ensures lo < |fs| ==> AtLeast(NotReady(fs, ready, lo), fs[lo].id)
    decreases |fs| - lo
  {
    if lo < |fs| {
      NotReadyAscending(fs, ready, lo + 1);
      var rest := NotReady(fs, ready, lo + 1);
      assert AtLeast(rest, fs[lo].id + 1) by {
        if lo + 1 < |fs| {
          assert fs[lo].id < fs[lo + 1].id;
        } else {
          assert rest == [];
        }
      }
      if fs[lo].id in ready {
        assert NotReady(fs, ready, lo) == rest;
      } else {
        assert NotReady(fs, ready, lo) == [fs[lo]] + rest;
        ConsAscending(fs[lo], rest);
      }
    }
  }

  /**
   * A poll keeps the identities valid: a started fetch takes `nextId`, and
   * removal keeps the order. With the empty start `FetchStream.constructor`
   * ensures, this holds of the fetches and `nextId` after every `PollNext`.
   */
  lemma PollKeepsIdsValid(fetches: seq<InFlight>, ticked: bool, nextId: nat, state: FetchState, ready: map<nat, Exchange>)
    requires IdsValid(fetches, nextId)
    ensures IdsValid(NotReady(Started(fetches, ticked, nextId, state), ready, 0), nextId + if ticked then 1 else 0)
  {
    var started := Started(fetches, ticked, nextId, state);
    assert Ascending(started) by {
      if ticked { assert started == fetches + [InFlight(nextId, state)]; }
    }
    NotReadyAscending(started, ready, 0);
  }

  /** The in-flight fetches once a tick has (or has not) pushed a fetch sent with `state`. */
  function Started(fetches: seq<InFlight>, ticked: bool, id: nat, state: FetchState): (r: seq<InFlight>)
    ensures ticked ==> |r| == |fetches| + 1 && r[|fetches|] == InFlight(id, state)
    ensures !ticked ==> r == fetches
    ensures r[..|fetches|] == fetches
  {
    if ticked then fetches + [InFlight(id, state)] else fetches
  }

  /** `Vec::pop`: the newest queued result, and the queue without it. */
  function Pop<T>(queue: seq<T>): (r: (Option<T>, seq<T>))
    ensures queue == [] ==> r == (None, [])
    ensures queue != [] ==> r.0 == Some(queue[|queue| - 1]) && r.1 + [queue[|queue| - 1]] == queue
  {
    if queue == [] then (None, []) else (Some(queue[|queue| - 1]), queue[..|queue| - 1])
  }

  /** A feed's stream of archive bodies: fetches started by a ticker, polled by hand. */
  class FetchStream {
    var fetchState: FetchState
    const ticker: Ticker
    var fetches: seq<InFlight>
    var fetchResults: seq<Result<seq<byte>, Error>>
    /** The identity the next fetch future gets. */
    var nextId: nat

    /** `FetchStream::from(client)`: default validators, a fresh ticker, nothing in flight. */
    constructor (intervalMillis: nat)
      requires Timeout(intervalMillis).Some?
      ensures fetchState == Default && fetches == [] && fetchResults == [] && nextId == 0
      ensures IdsValid(fetches, nextId)
      ensures fresh(ticker) && ticker.State() == Cell(None, true)
    {
      fetchState := Default;
      ticker := new Ticker(intervalMillis);
      fetches := [];
      fetchResults := [];
      nextId := 0;
    }

    /**
     * `poll_next` when `ready` maps each fetch that completes on this poll to
     * its exchange: a tick starts one fetch with the current validators, the
     * ready fetches are taken in index order and removed, and the newest
     * queued result is handed out; nothing queued means `Pending` (`None`).
     */
    method PollNext(cx: Waker, ready: map<nat, Exchange>) returns (p: Option<Result<seq<byte>, Error>>)
      modifies this, ticker
      ensures ticker.State() == PollCell(old(ticker.State()), cx).0
      ensures nextId == old(nextId) + if old(ticker.ticked) then 1 else 0
      ensures fetches == NotReady(Started(old(fetches), old(ticker.ticked), old(nextId), old(fetchState)), ready, 0)
      ensures fetchState == Absorb(old(fetchState), old(fetchResults), Started(old(fetches), old(ticker.ticked), old(nextId), old(fetchState)), ready).0
      ensures (p, fetchResults) == Pop(Absorb(old(fetchState), old(fetchResults), Started(old(fetches), old(ticker.ticked), old(nextId), old(fetchState)), ready).1)
    {
      var tick := ticker.PollNext(cx);
      if tick == Ready {
        fetches := fetches + [InFlight(nextId, fetchState)];
        nextId := nextId + 1;
      }
      var all := fetches;
      var toRemove;
      fetchState, fetchResults, toRemove := PollFetches(fetchState, fetchResults, all, ready);
      fetches := RemoveDescending(all, toRemove);
      RemovingReadyLeavesNotReady(all, ready);
      if fetchResults == [] {
        p := None;
      } else {
        p := Some(fetchResults[|fetchResults| - 1]);
        fetchResults := fetchResults[..|fetchResults| - 1];
      }
    }
  }
}
