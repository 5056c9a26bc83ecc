# emwin-tg, modelled in Dafny

This project models the core of `emwin-tg`. That crate turns the EMWIN feeds
published by the NWS telecommunications gateway into one stream of products.
Every feed runs a task. On each tick the task fetches the feed's zip archive
conditionally, making up to three attempts. It lists the archive's members and
sorts their names. It drops every name the shared seen-name cache already
holds, then extracts each new member as a `Product` and sends it on a channel.

The modules follow the crate's files:

| module | file | what it holds |
|---|---|---|
| `Wrappers`, `Errors` | `src/error.rs` | `Option`, `Result`, bytes; the three error kinds |
| `Names` | (library behaviour) | the byte-wise order of names, `sort`, ASCII upper-casing |
| `Zip` | (the zip library) | an archive as its list of members; `file_names`, `by_index`, `by_name` |
| `Products` | `src/product.rs` | `Product::new` (clamped read, upper-cased name, nested `.ZIP`), `mime_type` |
| `State` | `src/state.rs` | `StreamState` as a class over `last_seen_at`; `add_filenames_in`, `new_products_in` |
| `Ticker` | `src/time/wasm.rs` | the shared waker/flag cell, the interval callback and `poll_next` |
| `Fetch` | `src/fetch.rs` | `fetch` as a function of the exchange; `FetchStream` as a class and its `poll_next` |
| `Stream` | `src/stream.rs` | `TaskState::run`, `fetch_once` and `decompress` as methods on the channel contents |

Each imperative operation is a method. Its `ensures` ties the new state to a
specification function: `Recorded` and `NewNames` for the cache, `Absorb`,
`NotReady` and `Pop` for `FetchStream`, and `TickEffect` and `RunSpec` for the
task. Lemmas then prove what the crate promises about those functions:
- new names come out in sorted order, each exactly once;
- a name is not new while it was last seen within 6 hours;
- a tick reports an error only when all three attempts fail;
- `run(Some(n))` stops after `n` ticks;
- the last fresh fetch decides the validators;
- ticks that fire while nobody polls collapse into one.

Time is an integer count of nanoseconds on a monotonic clock. Each tick reads
the clock once. Zip parsing is an input: each call receives what the bytes
open as (`Option<Archive>`). For nested archives, each member carries what the
buffer `Product::new` reads from it, its first `min(size, 8 MiB)` bytes, opens as. HTTP exchanges are also inputs: each fetch attempt receives what
the server answered (`Exchange`), or directly the outcome of the attempt
(`Attempt`).

Three behaviours of the code are easy to misread; the model follows the code
as written in each:
- A member larger than 8 MiB is read up to 8 MiB and succeeds (`src/product.rs:48`).
  It is not reported as a read failure. `Products.PlainMember` states the
  truncated contents.
- The cull runs after the batch (`src/state.rs:58-59`). So a name whose entry is
  6 hours old or older, listed again before any call culled it, is refreshed and
  is not new. `State.StaleKeyRefreshedNotNew` states this. It becomes new again
  only after an intermediate call culled it (`State.NewAgainAfterCull`).
- Only 4xx and 5xx statuses are errors (`src/fetch.rs:114`). A 304 is "unchanged"
  only when a validator was sent. Without one, a 304 and any other status are
  taken as fresh content (`Fetch.NoValidatorsNeverUnchanged`).

## Model

| member | source | states |
|---|---|---|
| Names.Sort | src/state.rs:15-16 | the member names in ascending order: sorted, and a permutation of the listed names (duplicates kept) |
| Names.SortedPermutationUnique | src/state.rs:15-16 | two sorted permutations of the same names are equal, so the order `sort` leaves is determined |
| Names.BelowTotal | src/state.rs:16 | any two names are comparable in the order `sort` uses |
| Names.BelowTransitive | src/state.rs:16 | that order is transitive |
| Names.BelowAntisymmetric | src/state.rs:16 | two names each at or below the other are equal |
| Names.Upper | src/product.rs:52 | the upper-cased name has the same length, each character is the upper-case form of the original, and no lower-case ASCII letter is left |
| Names.UpperIdempotent | src/product.rs:52 | upper-casing an upper-cased name changes nothing |
| Zip.FileNames | src/state.rs:15 | one name per member, in directory order |
| Zip.ByIndex | src/product.rs:60 | succeeds exactly when the member can be opened, and then yields that member |
| Zip.ByName | src/state.rs:24 | a success is a readable member of that name; a listed name fails only when a member of that name cannot be opened |
| Products.ReadLen | src/product.rs:48 | the buffer length is at most the declared size and at most 8 MiB, and equals one of the two |
| Products.FromMember | src/product.rs:46-64 | a short read is `ArchiveFormat(Io)`; a product never has a `.ZIP` name or a lower-case letter in its name, and holds at most 8 MiB; failures are never HTTP errors; `ArchiveMember` names a `.ZIP` member |
| Products.New | src/product.rs:45-46 | a member the library could not open becomes `ArchiveFormat` of its error; otherwise the member is read as above |
| Products.PlainMember | src/product.rs:48-63 | a plain member yields its upper-cased name and exactly its first min(size, 8 MiB) bytes |
| Products.NestedSingleMember | src/product.rs:56-60 | a `.ZIP` member holding exactly one member becomes that inner member's product |
| Products.NestedWrongCount | src/product.rs:57-58 | a `.ZIP` member holding zero or several members fails with `ArchiveMember` naming the upper-cased outer member |
| Products.NestedUnreadable | src/product.rs:56 | a `.ZIP` member whose bytes do not open is `ArchiveFormat(Invalid)` |
| Products.LastSegment | src/product.rs:17 | the part after the last dot: contains no dot, ends the name, and is the whole name or preceded by a dot |
| Products.LastSegmentIs | src/product.rs:17 | the last segment is `ext` if and only if the name is `ext` or ends with a dot followed by `ext` |
| Products.MimeTypeAsWritten | src/product.rs:16-24 | `mime_type` as written: a type only when the last segment (which holds no dot) contains a dot, so never; any type returned is one of the four of the table |
| Products.MimeType | src/product.rs:16-24 | corrected: a type exactly when the last segment is `TXT`, `GIF`, `JPG` or `PNG`, and then one of the four types of the table |
| Products.MimeTypeAsWrittenIsNone | src/product.rs:16-24 | `mime_type` as written returns `None` for every product |
| Products.MimeTypeAsWrittenMissesText | src/product.rs:17-18 | `ZFPSFOTX.TXT` gets `None` as written and `text/plain` from the corrected version |
| Products.MimeTypeBySuffix | src/product.rs:16-24 | corrected: each MIME type is returned if and only if the name ends with its extension (or is the bare extension) |
| Products.MimeTypeText | src/product.rs:18 | corrected: `text/plain` if and only if the name is `TXT` or ends with `.TXT` |
| Products.MimeTypeGif | src/product.rs:19 | corrected: `image/gif` if and only if the name is `GIF` or ends with `.GIF` |
| Products.MimeTypeJpeg | src/product.rs:20 | corrected: `image/jpeg` if and only if the name is `JPG` or ends with `.JPG` |
| Products.MimeTypePng | src/product.rs:21 | corrected: `image/png` if and only if the name is `PNG` or ends with `.PNG` |
| State.StreamState.constructor | src/state.rs:73-77 | the cache starts empty |
| State.NewNames | src/state.rs:28-54 | the listed names that were neither keys nor listed earlier in the batch, in listing order; never more than were listed (membership and order in `State.NewNamesExactlyOnce` and `State.NewNamesSubsequence`) |
| State.Touch | src/state.rs:33-54 | the keys after the loop are the old keys plus the listed names; by definition each listed name is stamped `now` and every other entry is untouched |
| State.Cull | src/state.rs:56-59 | the `retain`: a key stays if and only if it was a key younger than 6 hours, and a kept key keeps its instant |
| State.Recorded | src/state.rs:33-59 | by definition `Touch` then `Cull`; its properties are proved in `State.RecordedEntries` |
| State.StreamState.AddFilenamesIn | src/state.rs:28-69 | returns the listed names not already keys, first occurrences in input order; the map becomes every listed name stamped `now`, then culled to entries younger than 6 hours |
| State.StreamState.NewProductsIn | src/state.rs:12-26 | an archive that does not open is `ArchiveFormat` with the cache untouched; otherwise the sorted names are recorded and one product per new name is returned |
| State.ExtractAll | src/state.rs:22-25 | one result per name, in order, each `Product::new(by_name(name))` |
| State.NewNamesSubsequence | src/state.rs:33-54 | the new names keep the order of the listing |
| State.NewNamesSorted | src/state.rs:15-18 | a sorted listing gives sorted new names |
| State.NewNamesExactlyOnce | src/state.rs:35-52 | a name is new if and only if it is listed and was not a key; no new name appears twice |
| State.SortWithDuplicate | src/state.rs:15-16 | sorting keeps both copies of a name listed twice, next to each other |
| State.DuplicateInOneListing | src/state.rs:35-52 | against an empty cache the second copy of a name in one listing is already seen |
| State.RecordedEntries | src/state.rs:36-59 | after a call every listed name is stamped `now`, no entry is 6 hours old, an unlisted key survives if and only if it is younger than 6 hours and keeps its instant, nothing else is added, and no instant decreases |
| State.SeenWithinWindow | src/state.rs:58-59 | a key stamped at or after `since` survives any run of calls made within 6 hours of `since` |
| State.NotNewWithinWindow | src/state.rs:28-59 | a name listed at `t` is not new in any batch of a later call made before `t` plus 6 hours |
| State.NewAgainAfterCull | src/state.rs:58-59 | a call 6 hours or more after a key's instant that does not list it removes the key, and the name is new again afterwards |
| State.StaleKeyRefreshedNotNew | src/state.rs:36-59 | a key 6 hours old or older that the batch lists is refreshed to `now` and not reported as new |
| Ticker.Timeout | src/time/wasm.rs:26 | the interval converts exactly when it fits in an `i32` |
| Ticker.Fire | src/time/wasm.rs:18-24 | the callback sets the flag, clears the stored waker and wakes the waker it held |
| Ticker.PollCell | src/time/wasm.rs:53-62 | a poll is ready if and only if the flag was set; it always clears the flag; a pending poll stores the caller's waker |
| Ticker.Ticker.constructor | src/time/wasm.rs:14-15 | the cell starts with no waker and the flag set |
| Ticker.Ticker.Callback | src/time/wasm.rs:18-24 | the class's cell and woken waker are those of `Fire` |
| Ticker.Ticker.PollNext | src/time/wasm.rs:53-62 | the class's cell and answer are those of `PollCell` |
| Ticker.MissedTicksCollapse | src/time/wasm.rs:53-62 | any number of ticks (at least one) between polls gives one ready poll and then a pending one |
| Ticker.ReadyAtMostOncePerTick | src/time/wasm.rs:18-62 | over any interleaving, ready polls plus a leftover flag never exceed the ticks plus an initially set flag |
| Ticker.PendingPollIsWoken | src/time/wasm.rs:18-62 | the task whose poll was pending is the one the next tick wakes |
| Fetch.ConditionalHeaders | src/fetch.rs:100-110 | `If-None-Match` is sent with value v if and only if the held ETag is v, and likewise `If-Modified-Since` for Last-Modified; no other header; none if and only if no validator is held |
| Fetch.ToStr | src/fetch.rs:132 | a header value converts if and only if it is tabs and visible ASCII, and then character for byte |
| Fetch.Validators | src/fetch.rs:128-143 | each new validator is the `to_str` text of the response header of that name: present if and only if the header is there and converts, and sendable again |
| Fetch.Fetch | src/fetch.rs:94-150 | no response is a transport error; 4xx/5xx is a status error; "not modified" if and only if 304 with a validator held; every other answer yields its body with the response's validators, or a body error when the body cannot be read |
| Fetch.FreshStateIgnoresOldState | src/fetch.rs:128-148 | fresh content and its validators do not depend on the validators sent |
| Fetch.NoValidatorsNeverUnchanged | src/fetch.rs:118-126 | without validators a 304 is never "not modified" and its body is returned as fresh |
| Fetch.FetchedStateSendable | src/fetch.rs:128-143 | every validator state `fetch` hands back can be sent as headers; it sends none exactly when the response had no usable validator |
| Fetch.NotReady | src/fetch.rs:83-85 | the remaining fetches are exactly the pending ones of the list |
| Fetch.ReadyIndices | src/fetch.rs:65-69 | the recorded indices are exactly the ready fetches, ascending |
| Fetch.Absorb | src/fetch.rs:66-81 | the result queue only grows, by at most one entry per fetch, and keeps what it held |
| Fetch.Queued | src/fetch.rs:68-78 | a fetch adds nothing when pending or not modified, otherwise exactly one entry: its body for fresh content, its error for a failure |
| Fetch.AbsorbQueuesReported | src/fetch.rs:66-81 | the queue after a poll is the old queue followed by exactly what the ready fetches report, in index order |
| Fetch.AbsorbLastFreshWins | src/fetch.rs:71-73 | without fresh content the validators stay; otherwise the last fresh fetch in index order sets them |
| Fetch.RemoveDescending | src/fetch.rs:83-85 | removing the ascending indices from the highest down leaves exactly the other fetches, in order |
| Fetch.PollFetches | src/fetch.rs:65-81 | the poll loop yields the state and queue of `Absorb` and the ready indices |
| Fetch.RemovingReadyLeavesNotReady | src/fetch.rs:65-85 | removing the indices the loop recorded leaves exactly the pending fetches |
| Fetch.Started | src/fetch.rs:54-63 | a tick appends one fetch carrying the current validators; no tick changes nothing |
| Fetch.Pop | src/fetch.rs:87-90 | the newest queued result is handed out and removed; an empty queue gives nothing |
| Fetch.FetchStream.constructor | src/fetch.rs:35-46 | default validators, a fresh ticker with its flag set, nothing in flight or queued, identities starting at 0 (so the identity invariant holds) |
| Fetch.FetchStream.PollNext | src/fetch.rs:51-91 | ticker polled; on a tick one fetch starts; ready fetches are absorbed in index order and removed; the newest result is popped |
| Fetch.NotReadyAscending | src/fetch.rs:83-85 | removing ready fetches keeps the identities of the rest strictly ascending |
| Fetch.PollKeepsIdsValid | src/fetch.rs:54-85 | a poll keeps the in-flight identities strictly ascending and below the next identity, so no two in-flight fetches share one |
| Stream.Settled | src/stream.rs:166-180 | 0 exactly when all three attempts fail, otherwise the first attempt that did not fail, after failed ones only |
| Stream.TickEffect | src/stream.rs:166-180 | by definition: all three attempts failed gives one HTTP error and the cache unchanged; otherwise the settling attempt decides, "unchanged" giving nothing and a body giving `DecompressOutput` and `DecompressRegistry`; its properties are proved in `Stream.TickErrors` and `Stream.UnchangedTickIsQuiet` |
| Stream.DecompressOutput | src/stream.rs:206-239 | an archive that does not open gives exactly one `ArchiveFormat(Invalid)`; otherwise one message per new name of the sorted listing |
| Stream.DecompressRegistry | src/stream.rs:206-239 | by definition: the cache is unchanged when the archive does not open, and otherwise is the `Recorded` cache of the sorted member names |
| Stream.Countdown | src/stream.rs:155-159 | `Some(0)` ends the task, `Some(n)` becomes `Some(n - 1)`, `None` stays |
| Stream.RunSpec | src/stream.rs:147-182 | a run never runs more tick bodies than ticks or than the countdown, and it keeps waiting only after using every tick |
| Stream.TaskState.constructor | src/stream.rs:139-144 | a task over the shared cache with nothing sent |
| Stream.TaskState.Decompress | src/stream.rs:201-240 | sends what `decompress` sends and leaves the cache as `new_products_in` does |
| Stream.TaskState.SendAll | src/stream.rs:232-234 | sends every product result, in order |
| Stream.TaskState.FetchOnce | src/stream.rs:184-198 | fails if and only if the fetch failed, with that error and nothing sent; "not modified" does nothing; a body is decompressed |
| Stream.TaskState.RetryTick | src/stream.rs:166-180 | attempts until one does not fail (at most 3), sleeps before each retry, and sends and records what `TickEffect` says |
| Stream.TaskState.Run | src/stream.rs:147-182 | everything sent, the cache, the ticks run and whether `run` returned are those of `RunSpec` |
| Stream.CountedRun | src/stream.rs:155-159 | `run(Some(n))` runs min(n, ticks before the receiver closes) tick bodies, and keeps waiting only if the ticks ran out first |
| Stream.UnboundedRun | src/stream.rs:154-164 | `run(None)` runs a tick body for each tick until the receiver closes, and returns exactly then |
| Stream.ClosedBeforeAnyAttempt | src/stream.rs:161-164 | a receiver gone at the tick stops the task with nothing fetched or sent |
| Stream.DecompressSendsNoHttpError | src/stream.rs:206-238 | decompressing never sends an HTTP error |
| Stream.TickErrors | src/stream.rs:166-180 | a tick sends an HTTP error if and only if all three attempts fail, then exactly one (the third attempt's) and the cache is untouched |
| Stream.UnchangedTickIsQuiet | src/stream.rs:188-191 | an unchanged archive sends nothing and leaves the cache alone |
| Stream.RunHttpErrors | src/stream.rs:147-182 | over a run the consumer receives exactly one HTTP error per tick that exhausted its attempts |
| Stream.DecompressNewInOrder | src/stream.rs:208-234 | one message per listed name not already cached, each once, in sorted order, each the product of the member of that name |
| Stream.DecompressUnreadable | src/stream.rs:206-238 | an archive that does not open sends the one format error and leaves the cache alone |

## Left out

- The tokio runtime, task spawning, `abort` on drop and the `Stream` front end (`src/stream.rs:47-115`): concurrency is not modelled. A task's messages are the sequence it sends, in order.
- Channel capacity 50 and back-pressure: `sent` is unbounded. Sends after the receiver is dropped are ignored by the code; the model only checks for a closed receiver at the top of a tick.
- Contention between feeds on the shared cache: one task's calls are modelled in sequence. The `Mutex` and the interleaving of several tasks are not modelled.
- The HTTP client, TLS and request building: an exchange is an input (`Fetch.Exchange`, `Stream.Attempt`). `req.build()` failing is not modelled, because the stored validators are always sendable (`Fetch.FetchedStateSendable`).
- Draining the body after a 304 (`src/fetch.rs:124`): its errors are discarded, so it has no effect on the result.
- Zip parsing and decompression: "opening" bytes is an input (`Option<Archive>`), and so is the inner archive of each member.
- `Products.FromMember`: nesting is always finite, because an `Archive` value is finite. The code's recursion has no bound; a single-member `.ZIP` whose member opens as itself (a zip quine) would recurse until the stack overflows, and the model cannot express that input.
- `Zip.ByName`: returns the first member of a name; how the library treats duplicate member names is not modelled.
- The 4-second sleep between attempts and the tick interval: only the number of sleeps is counted (`Stream.TaskState.RetryTick`). `MissedTickBehavior::Delay` and real time are not modelled; each tick reads the clock once (`TickEvent.now`).
- `Stream.TaskState.FetchOnce`: `run` and `fetch_once` use a `FetchState<F>` with `new` and `fetch(&client)`, and `src/stream.rs` passes its `resp.bytes()` body on. That type is not part of this model. Attempts are given as `Stream.Attempt` values, and `Fetch.Fetch` models the `fetch` of `src/fetch.rs` separately.
- `Names.Upper`: only ASCII letters are upper-cased. Unicode case mapping (`to_uppercase` on non-ASCII text) is not modelled.
- `Names.Below`: compares characters by code point, which is the byte order of UTF-8 `String`s.
- `Product::string_contents` and `into_string_lossy` (`src/product.rs:26-43`): UTF-8 decoding is not modelled.
- `src/stream/text.rs`, `src/stream/image.rs` (feed URLs and intervals), `src/lib.rs` (default client), `src/wasm.rs` (JavaScript bindings) and `examples/print.rs` are not part of this model.
- The native ticker selected by `src/time.rs` is not part of this model; `FetchStream` uses the browser ticker of `src/time/wasm.rs`.
- `Ticker.Ticker.constructor`: `setInterval` registration, its handle and `clearInterval` on drop are browser calls and are not modelled. The interval callback is the method `Ticker.Ticker.Callback`.
- `Fetch.FetchStream.PollNext`: a fetch future is an identity plus the validators it was started with, and which futures are ready on a poll is an input (`ready`). Waking through the context passed to the futures is not modelled.
- `Fetch.FetchStream.PollNext`: the identity invariant (strictly ascending, below the next identity) is not carried in its own contract; it is proved of the new state that contract describes, by `Fetch.PollKeepsIdsValid`, starting from the constructor.
- `Fetch.FetchStream.PollNext`: `Poll::Ready(None)` never occurs, so the stream's answer is `Some(result)` or `None` for pending.
- Logging is left out.

## Findings

| source | as written | input that shows it | evidently intended | confidence | as-written member | corrected member |
|---|---|---|---|---|---|---|
| src/product.rs:17-21 | the part of the name after the last `.` is compared with `".TXT"`, `".GIF"`, `".JPG"` and `".PNG"`; that part never contains a dot, so `mime_type` always returns `None` | `Product { filename: "ZFPSFOTX.TXT", .. }` gives `None`, while the documented example at src/stream.rs:34 expects `Some("text/plain")` for a text product | compare the extension without its dot, so `ZFPSFOTX.TXT` is `text/plain` | high; not executed | Products.MimeTypeAsWrittenIsNone | Products.MimeTypeBySuffix |
