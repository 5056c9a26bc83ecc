/**
 * The seen-name cache shared by every feed (src/state.rs): an ordered map from
 * member name to the instant it was last listed. A batch of names is filtered to
 * those not seen before; every listed name is stamped with the current instant,
 * and afterwards every entry 6 hours old or older is dropped.
 *
 * Instants are integers counting nanoseconds on a monotonic clock.
 */
module State {
  import opened Wrappers
  import opened Errors
  import opened Names
  import opened Zip
  import opened Products

  /** `Duration::from_secs(6 * 3600)`, in nanoseconds. */
  const RetentionNanos: int := 6 * 3600 * 1_000_000_000

  /** No stored instant lies after `now` (an `Instant` clock never runs backwards). */
  predicate NotAfter(m: map<string, int>, now: int)
  {
    forall k :: k in m ==> m[k] <= now
  }

  /**
   * The names of `names` that are neither in `seen` nor listed earlier in `names`,
   * in their order: what `add_filenames_in` returns.
   */
  function NewNames(seen: set<string>, names: seq<string>): (r: seq<string>)
    ensures |r| <= |names|
  {
    if names == [] then []
    else
      var prefix := names[..|names| - 1];
      var last := names[|names| - 1];
      if last in seen || last in prefix then NewNames(seen, prefix)
      else NewNames(seen, prefix) + [last]
  }

  /** The map after the loop of `add_filenames_in`: every listed name stamped `now`, the rest untouched. */
  function Touch(m: map<string, int>, names: seq<string>, now: int): (r: map<string, int>)
    ensures r.Keys == m.Keys + (set n | n in names)
  {
    map k | k in m.Keys + (set n | n in names) :: if k in names then now else m[k]
  }

  /** The whole map after `add_filenames_in`. */
  function Recorded(m: map<string, int>, names: seq<string>, now: int): (r: map<string, int>)
  {
    Cull(Touch(m, names, now), now)
  }

  /** The map after `retain`: only entries younger than the retention window. */
  function Cull(m: map<string, int>, now: int): (r: map<string, int>)
    ensures forall k :: k in r <==> k in m && now - m[k] < RetentionNanos
    ensures forall k :: k in r ==> r[k] == m[k]
  {
    map k | k in m && now - m[k] < RetentionNanos :: m[k]
  }

  /** The `retain` that ends `add_filenames_in` is `Cull`. */
  lemma RetainIsCull(m: map<string, int>, now: int)
    ensures (map k | k in m && now - m[k] < RetentionNanos :: m[k]) == Cull(m, now)
  {
  }

  /** One turn of the loop of `add_filenames_in`, stated on the specification. */
  lemma LoopStep(m: map<string, int>, names: seq<string>, i: nat, now: int)
    requires i < |names|
    ensures names[i] in Touch(m, names[..i], now) <==> names[i] in m.Keys || names[i] in names[..i]
    ensures Touch(m, names[..i + 1], now) == Touch(m, names[..i], now)[names[i] := now]
    ensures NewNames(m.Keys, names[..i + 1]) ==
      if names[i] in Touch(m, names[..i], now) then NewNames(m.Keys, names[..i])
      else NewNames(m.Keys, names[..i]) + [names[i]]
  {
    assert names[..i + 1][..i] == names[..i];
    assert names[..i + 1] == names[..i] + [names[i]];
    var before, after := Touch(m, names[..i], now), Touch(m, names[..i + 1], now);
    forall k | k in after ensures k in before[names[i] := now] && after[k] == before[names[i] := now][k] {
      if k != names[i] { assert k in names[..i + 1] <==> k in names[..i]; }
    }
  }

  /** `a` is `b` with some elements left out, the rest kept in order. */
  predicate SubsequenceOf(a: seq<string>, b: seq<string>)
  {
    if a == [] then true
    else if b == [] then false
    else
      || (a[|a| - 1] == b[|b| - 1] && SubsequenceOf(a[..|a| - 1], b[..|b| - 1]))
      || SubsequenceOf(a, b[..|b| - 1])
  }

  class StreamState {
    var lastSeenAt: map<string, int>

    /** `StreamState::new`: nothing seen yet. */
    constructor ()
      ensures lastSeenAt == map[]
    {
      lastSeenAt := map[];
    }

    /**
     * `add_filenames_in`: returns the names not seen before, in input order, and
     * records every listed name at `now` before culling stale entries.
     */
    method AddFilenamesIn(names: seq<string>, now: int) returns (out: seq<string>)
      requires NotAfter(lastSeenAt, now)
      modifies this
      ensures out == NewNames(old(lastSeenAt).Keys, names)
      ensures lastSeenAt == Recorded(old(lastSeenAt), names, now)
    {
      out := [];
      for i := 0 to |names|
        invariant out == NewNames(old(lastSeenAt).Keys, names[..i])
        invariant lastSeenAt == Touch(old(lastSeenAt), names[..i], now)
      {
        var name := names[i];
        LoopStep(old(lastSeenAt), names, i, now);
        if name in lastSeenAt {
          // Seen before: refresh its timestamp and skip it.
          lastSeenAt := lastSeenAt[name := now];
        } else {
          out := out + [name];
          lastSeenAt := lastSeenAt[name := now];
        }
      }
      assert names[..|names|] == names;
      RetainIsCull(lastSeenAt, now);
      lastSeenAt := map k | k in lastSeenAt && now - lastSeenAt[k] < RetentionNanos :: lastSeenAt[k];
    }

    /**
     * `new_products_in`: open the archive, sort its member names, keep the new
     * ones and extract each of them; an archive that cannot be opened is an
     * error and leaves the cache alone.
     */
    method NewProductsIn(parsed: Option<Archive>, now: int) returns (r: Result<seq<Result<Product, Error>>, Error>)
      requires NotAfter(lastSeenAt, now)
      modifies this
      ensures parsed.None? ==> r == Err(ArchiveFormat(Invalid)) && lastSeenAt == old(lastSeenAt)
      ensures parsed.Some? ==> lastSeenAt == Recorded(old(lastSeenAt), Sort(FileNames(parsed.value)), now)
      ensures parsed.Some? ==>
        r == Ok(ExtractAll(parsed.value, NewNames(old(lastSeenAt).Keys, Sort(FileNames(parsed.value)))))
    {
      if parsed.None? {
        return Err(ArchiveFormat(Invalid));
      }
      var archive := parsed.value;
      var names := Sort(FileNames(archive));
      var newNames := AddFilenamesIn(names, now);
      var products := [];
      for i := 0 to |newNames|
        invariant products == ExtractAll(archive, newNames[..i])
      {
        assert newNames[..i + 1][..i] == newNames[..i];
        products := products + [New(ByName(archive, newNames[i]))];
      }
      assert newNames[..|newNames|] == newNames;
      r := Ok(products);
    }
  }

  /** `Product::new(archive.by_name(name))` for each name, in order. */
  function ExtractAll(a: Archive, names: seq<string>): (r: seq<Result<Product, Error>>)
    ensures |r| == |names|
    ensures forall i :: 0 <= i < |names| ==> r[i] == New(ByName(a, names[i]))
  {
    if names == [] then [] else ExtractAll(a, names[..|names| - 1]) + [New(ByName(a, names[|names| - 1]))]
  }

  // ---------------------------------------------------------------------------
  // What `add_filenames_in` returns

  lemma {:induction false} SubsequenceElements(a: seq<string>, b: seq<string>)
    requires SubsequenceOf(a, b)
    ensures forall x :: x in a ==> x in b
  {
    if a != [] && b != [] {
      if a[|a| - 1] == b[|b| - 1] && SubsequenceOf(a[..|a| - 1], b[..|b| - 1]) {
        SubsequenceElements(a[..|a| - 1], b[..|b| - 1]);
        assert a == a[..|a| - 1] + [a[|a| - 1]] && b == b[..|b| - 1] + [b[|b| - 1]];
      } else {
        SubsequenceElements(a, b[..|b| - 1]);
        assert b == b[..|b| - 1] + [b[|b| - 1]];
      }
    }
  }

  /** A subsequence of a sorted sequence is sorted. */
  lemma {:induction false} SortedSubsequence(a: seq<string>, b: seq<string>)
    requires Sorted(b) && SubsequenceOf(a, b)
    ensures Sorted(a)
  {
    if a != [] && b != [] {
      var a', b' := a[..|a| - 1], b[..|b| - 1];
      if a[|a| - 1] == b[|b| - 1] && SubsequenceOf(a', b') {
        SortedSubsequence(a', b');
        SubsequenceElements(a', b');
        forall i, j | 0 <= i < j < |a| ensures Below(a[i], a[j]) {
          if j == |a| - 1 {
            assert a[i] in a';
            var k :| 0 <= k < |b'| && b'[k] == a[i];
            assert Below(b[k], b[|b| - 1]);
          } else {
            assert a[i] == a'[i] && a[j] == a'[j];
          }
        }
      } else {
        SortedSubsequence(a, b');
      }
    }
  }

  /** The result keeps the input order: it is a subsequence of the input. */
  lemma {:induction false} NewNamesSubsequence(seen: set<string>, names: seq<string>)
    ensures SubsequenceOf(NewNames(seen, names), names)
  {
    if names != [] {
      var prefix := names[..|names| - 1];
      NewNamesSubsequence(seen, prefix);
      var r := NewNames(seen, names);
      if r != [] && r == NewNames(seen, prefix) + [names[|names| - 1]] {
        assert r[..|r| - 1] == NewNames(seen, prefix);
      }
    }
  }

  /** A sorted batch gives a sorted result. */
  lemma NewNamesSorted(seen: set<string>, names: seq<string>)
    requires Sorted(names)
    ensures Sorted(NewNames(seen, names))
  {
    NewNamesSubsequence(seen, names);
    SortedSubsequence(NewNames(seen, names), names);
  }

  /**
   * A name is in the result exactly when it is listed and was not a key before
   * the call, and then it is there once, even when the batch lists it twice.
   */
  lemma {:induction false} NewNamesExactlyOnce(seen: set<string>, names: seq<string>)
    ensures forall x :: x in NewNames(seen, names) <==> x in names && x !in seen
    ensures forall i, j :: 0 <= i < j < |NewNames(seen, names)| ==> NewNames(seen, names)[i] != NewNames(seen, names)[j]
  {
    if names != [] {
      var prefix, last := names[..|names| - 1], names[|names| - 1];
      NewNamesExactlyOnce(seen, prefix);
      assert names == prefix + [last];
    }
  }

  /** Sorting `["B.TXT", "A.TXT", "A.TXT"]` puts the two `"A.TXT"` first. */
  lemma SortWithDuplicate()
    ensures Sort(["B.TXT", "A.TXT", "A.TXT"]) == ["A.TXT", "A.TXT", "B.TXT"]
  {
  }

  /** Against an empty cache, the second of two `"A.TXT"` in one batch is already seen. */
  lemma DuplicateInOneListing()
    ensures NewNames({}, ["A.TXT", "A.TXT", "B.TXT"]) == ["A.TXT", "B.TXT"]
  {
    var sorted := ["A.TXT", "A.TXT", "B.TXT"];
    assert sorted[..2] == ["A.TXT", "A.TXT"] && sorted[..2][..1] == ["A.TXT"] && sorted[..2][..1][..0] == [];
    assert NewNames({}, ["A.TXT"]) == ["A.TXT"];
    assert NewNames({}, ["A.TXT", "A.TXT"]) == ["A.TXT"];
  }

  // ---------------------------------------------------------------------------
  // What the cache holds afterwards

  /**
   * After a call every listed name is a key stamped `now`, no key is 6 hours
   * old or older, an unlisted key stays with its old instant exactly when it is
   * younger than 6 hours, nothing else is added, and no instant moves backwards.
   */
  lemma RecordedEntries(m: map<string, int>, names: seq<string>, now: int)
    requires NotAfter(m, now)
    ensures forall x :: x in names ==> x in Recorded(m, names, now) && Recorded(m, names, now)[x] == now
    ensures forall k :: k in Recorded(m, names, now) ==> 0 <= now - Recorded(m, names, now)[k] < RetentionNanos
    ensures forall k :: k in m && k !in names ==>
      (k in Recorded(m, names, now) <==> now - m[k] < RetentionNanos)
    ensures forall k :: k in Recorded(m, names, now) && k !in names ==> k in m && Recorded(m, names, now)[k] == m[k]
    ensures forall k :: k in m && k in Recorded(m, names, now) ==> m[k] <= Recorded(m, names, now)[k]
    ensures NotAfter(Recorded(m, names, now), now)
  {
  }

  /** One call of `add_filenames_in`: the names it lists and the instant it reads. */
  datatype Batch = Batch(names: seq<string>, now: int)

  /** The cache after a run of calls. */
  function Replay(m: map<string, int>, calls: seq<Batch>): map<string, int>
    decreases |calls|
  {
    if calls == [] then m else Replay(Recorded(m, calls[0].names, calls[0].now), calls[1..])
  }

  /**
   * A key stamped at or after `since` survives any run of calls made from
   * `since` to before `since` plus 6 hours, and keeps an instant at or after `since`.
   */
  lemma {:induction false} SeenWithinWindow(m: map<string, int>, x: string, since: int, calls: seq<Batch>)
    requires x in m && since <= m[x]
    requires forall i :: 0 <= i < |calls| ==> since <= calls[i].now < since + RetentionNanos
    ensures x in Replay(m, calls) && since <= Replay(m, calls)[x]
    decreases |calls|
  {
    if calls != [] {
      var m' := Recorded(m, calls[0].names, calls[0].now);
      assert x in m' && since <= m'[x];
      forall i | 0 <= i < |calls[1..]| ensures since <= calls[1..][i].now < since + RetentionNanos {
        assert calls[1..][i] == calls[i + 1];
      }
      SeenWithinWindow(m', x, since, calls[1..]);
    }
  }

  /** A name listed at `t` is not new in any batch before `t` plus 6 hours. */
  lemma NotNewWithinWindow(m: map<string, int>, first: Batch, calls: seq<Batch>, x: string, later: seq<string>)
    requires NotAfter(m, first.now)
    requires x in first.names
    requires forall i :: 0 <= i < |calls| ==> first.now <= calls[i].now < first.now + RetentionNanos
    ensures x !in NewNames(Replay(Recorded(m, first.names, first.now), calls).Keys, later)
  {
    RecordedEntries(m, first.names, first.now);
    SeenWithinWindow(Recorded(m, first.names, first.now), x, first.now, calls);
    NewNamesExactlyOnce(Replay(Recorded(m, first.names, first.now), calls).Keys, later);
  }

  /** A call at least 6 hours after a key's instant that does not list it drops it; listed again, it is new. */
  lemma NewAgainAfterCull(m: map<string, int>, x: string, names: seq<string>, now: int, later: seq<string>)
    requires x in m && x !in names && now - m[x] >= RetentionNanos
    requires x in later
    ensures x !in Recorded(m, names, now)
    ensures x in NewNames(Recorded(m, names, now).Keys, later)
  {
  }

  /**
   * The cull runs after the batch: a key 6 hours old or older that the batch
   * lists is refreshed, not reported as new.
   */
  lemma StaleKeyRefreshedNotNew(m: map<string, int>, x: string, names: seq<string>, now: int)
    requires NotAfter(m, now)
    requires x in m && x in names && now - m[x] >= RetentionNanos
    ensures x !in NewNames(m.Keys, names)
    ensures x in Recorded(m, names, now) && Recorded(m, names, now)[x] == now
  {
    NewNamesExactlyOnce(m.Keys, names);
  }
}
