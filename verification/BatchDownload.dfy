/**
 Concurrent record download: one task per requested id, results collected in completion order and
 put back into request order. A task that panics is collected as an anonymous join error.
 */
module BatchDownload {
  import opened Prelude

  type Id = string

  datatype Fetched<T> = Found(record: T) | Absent | FetchError(reason: nat) | JoinError | NotFound(id: Id)

  type Entry<T> = (Id, Fetched<T>)

  function Without<T>(s: seq<T>, k: nat): seq<T>
    requires k < |s|
  {
    s[..k] + s[k + 1..]
  }

  lemma MultisetWithout<T>(s: seq<T>, k: nat)
    requires k < |s|
    ensures multiset(s) == multiset(Without(s, k)) + multiset{s[k]}
  {
    assert s == s[..k] + ([s[k]] + s[k + 1..]);
  }

  /** The results for one id, in completion order. */
  function For<T>(results: seq<Entry<T>>, id: Id): seq<Entry<T>> {
    if results == [] then []
    else (if results[0].0 == id then [results[0]] else []) + For(results[1..], id)
  }

  lemma {:induction false} ForConcat<T>(a: seq<Entry<T>>, b: seq<Entry<T>>, id: Id)
    ensures For(a + b, id) == For(a, id) + For(b, id)
  {
    if a == [] {
      assert a + b == b;
    } else {
      var whole, rest := a + b, a[1..];
      assert whole[0] == a[0] && whole[1..] == rest + b;
      ForConcat(rest, b, id);
      var first := if a[0].0 == id then [a[0]] else [];
      assert For(whole, id) == first + For(rest + b, id) && For(a, id) == first + For(rest, id);
      assert first + (For(rest, id) + For(b, id)) == (first + For(rest, id)) + For(b, id);
    }
  }

  lemma {:induction false} ForNone<T>(s: seq<Entry<T>>, id: Id)
    ensures For(s, id) == [] <==> forall k :: 0 <= k < |s| ==> s[k].0 != id
  {
    if s != [] {
      ForNone(s[1..], id);
      assert forall k :: 0 < k < |s| ==> s[k] == s[1..][k - 1];
    }
  }

  /** Taking out the first result for `taken` shortens that id's results by one and no other's. */
  lemma ForWithout<T>(s: seq<Entry<T>>, k: nat, taken: Id, id: Id)
    requires k < |s| && s[k].0 == taken && forall j :: 0 <= j < k ==> s[j].0 != taken
    ensures For(s, taken) != [] && s[k] == For(s, taken)[0]
    ensures For(Without(s, k), id) == if id == taken then For(s, id)[1..] else For(s, id)
  {
    var before, rest := s[..k], s[k + 1..];
    assert s == before + ([s[k]] + rest);
    ForConcat(before, [s[k]] + rest, id);
    ForConcat(before, [s[k]] + rest, taken);
    ForConcat(before, rest, id);
    ForNone(before, taken);
    assert ([s[k]] + rest)[1..] == rest;
  }

  /** `position`: the first result for the id, or the length if there is none. */
  method Position<T>(results: seq<Entry<T>>, id: Id) returns (pos: nat)
    ensures pos <= |results|
    ensures pos < |results| ==> results[pos].0 == id
    ensures forall j :: 0 <= j < pos ==> results[j].0 != id
  {
    pos := 0;
    while pos < |results| && results[pos].0 != id
      invariant pos <= |results|
      invariant forall j :: 0 <= j < pos ==> results[j].0 != id
    {
      pos := pos + 1;
    }
  }

  function Occurrences(ids: seq<Id>, id: Id): nat { multiset(ids)[id] }

  /** What request k must receive: the next unused result for its id, or a not-found error. */
  function Expected<T>(ids: seq<Id>, results: seq<Entry<T>>, k: nat): Entry<T>
    requires k < |ids|
  {
    var id := ids[k];
    var used := Occurrences(ids[..k], id);
    if used < |For(results, id)| then For(results, id)[used] else (id, NotFound(id))
  }

  function Ids<T>(entries: seq<Entry<T>>): (r: seq<Id>)
    ensures |r| == |entries|
  {
    seq(|entries|, k requires 0 <= k < |entries| => entries[k].0)
  }

  function Drop<T>(s: seq<T>, n: nat): seq<T> {
    if n <= |s| then s[n..] else []
  }

  /** After k requests, the results still to be used are the later ones for each id. */
  ghost predicate Remaining<T(!new)>(ids: seq<Id>, collected: seq<Entry<T>>, results: seq<Entry<T>>, k: nat)
    requires k <= |ids|
  {
    forall id :: For(results, id) == Drop(For(collected, id), Occurrences(ids[..k], id))
  }

  lemma OccurrencesStep(ids: seq<Id>, k: nat, id: Id)
    requires k < |ids|
    ensures Occurrences(ids[..k + 1], id) == Occurrences(ids[..k], id) + if ids[k] == id then 1 else 0
  {
    assert ids[..k + 1] == ids[..k] + [ids[k]];
  }

  lemma Serve<T(!new)>(ids: seq<Id>, collected: seq<Entry<T>>, results: seq<Entry<T>>, k: nat, pos: nat)
    requires k < |ids| && Remaining(ids, collected, results, k)
    requires pos < |results| && results[pos].0 == ids[k] && forall j :: 0 <= j < pos ==> results[j].0 != ids[k]
    ensures results[pos] == Expected(ids, collected, k)
    ensures Remaining(ids, collected, Without(results, pos), k + 1)
  {
    forall id ensures For(Without(results, pos), id) == Drop(For(collected, id), Occurrences(ids[..k + 1], id)) {
      ForWithout(results, pos, ids[k], id);
      OccurrencesStep(ids, k, id);
      assert For(results, id) == Drop(For(collected, id), Occurrences(ids[..k], id));
    }
    ForWithout(results, pos, ids[k], ids[k]);
    assert For(results, ids[k]) == Drop(For(collected, ids[k]), Occurrences(ids[..k], ids[k]));
  }

  lemma Miss<T(!new)>(ids: seq<Id>, collected: seq<Entry<T>>, results: seq<Entry<T>>, k: nat)
    requires k < |ids| && Remaining(ids, collected, results, k) && For(results, ids[k]) == []
    ensures Expected(ids, collected, k) == (ids[k], NotFound(ids[k]))
    ensures Remaining(ids, collected, results, k + 1)
  {
    forall id ensures For(results, id) == Drop(For(collected, id), Occurrences(ids[..k + 1], id)) {
      OccurrencesStep(ids, k, id);
      assert For(results, id) == Drop(For(collected, id), Occurrences(ids[..k], id));
    }
  }

  /** Placeholders stand only for ids with no result left. */
  ghost predicate Genuine<T>(placeholders: seq<Entry<T>>, left: seq<Entry<T>>) {
    forall p :: p in placeholders ==> p.1 == NotFound(p.0) && For(left, p.0) == []
  }

  lemma GenuineAfterServe<T>(placeholders: seq<Entry<T>>, results: seq<Entry<T>>, pos: nat)
    requires pos < |results| && Genuine(placeholders, results)
    ensures Genuine(placeholders, Without(results, pos))
  {
    forall p | p in placeholders ensures For(Without(results, pos), p.0) == [] {
      ForNone(results, p.0);
      ForNone(Without(results, pos), p.0);
    }
  }

  /**
   The re-ordering loop, for any requests (duplicates included) and any collected results: request k
   receives the next unused result for its id in completion order. Nothing is lost or invented: what
   was placed and what was left over are the results and the placeholders.
   */
  method Reorder<T(==, !new)>(ids: seq<Id>, collected: seq<Entry<T>>)
    returns (ordered: seq<Entry<T>>, ghost left: seq<Entry<T>>, ghost placeholders: seq<Entry<T>>)
    ensures |ordered| == |ids|
    ensures forall k :: 0 <= k < |ids| ==> ordered[k].0 == ids[k] && ordered[k] == Expected(ids, collected, k)
    ensures multiset(ordered) + multiset(left) == multiset(collected) + multiset(placeholders)
    ensures Genuine(placeholders, left)
  {
    hide For, Expected, Remaining, Genuine;
    var results := collected;
    ordered, placeholders := [], [];
    StartRemaining<T>(ids, collected);
    for k := 0 to |ids|
      invariant |ordered| == k
      invariant forall j :: 0 <= j < k ==> ordered[j].0 == ids[j] && ordered[j] == Expected(ids, collected, j)
      invariant Remaining(ids, collected, results, k)
      invariant multiset(ordered) + multiset(results) == multiset(collected) + multiset(placeholders)
      invariant Genuine(placeholders, results)
    {
      var id := ids[k];
      var pos := Position(results, id);
      if pos < |results| {
        Serve(ids, collected, results, k, pos);
        MultisetWithout(results, pos);
        GenuineAfterServe(placeholders, results, pos);
        Move(multiset(ordered), multiset(Without(results, pos)), multiset(collected) + multiset(placeholders),
             results[pos]);
        ordered := ordered + [results[pos]];
        results := Without(results, pos);
      } else {
        ForNone(results, id);
        Miss(ids, collected, results, k);
        GenuineAfterMiss(placeholders, results, id);
        Pad(multiset(ordered), multiset(results), multiset(collected), multiset(placeholders), (id, NotFound(id)));
        ordered := ordered + [(id, NotFound(id))];
        placeholders := placeholders + [(id, NotFound(id))];
      }
    }
    left := results;
  }

  lemma Move<T>(placed: multiset<T>, rest: multiset<T>, total: multiset<T>, x: T)
    requires placed + (rest + multiset{x}) == total
    ensures (placed + multiset{x}) + rest == total
  {
  }

  lemma Pad<T>(placed: multiset<T>, rest: multiset<T>, collected: multiset<T>, placeholders: multiset<T>, x: T)
    requires placed + rest == collected + placeholders
    ensures (placed + multiset{x}) + rest == collected + (placeholders + multiset{x})
  {
    assert (placed + multiset{x}) + rest == (placed + rest) + multiset{x};
    assert collected + (placeholders + multiset{x}) == (collected + placeholders) + multiset{x};
  }

  lemma StartRemaining<T(!new)>(ids: seq<Id>, collected: seq<Entry<T>>)
    ensures Remaining(ids, collected, collected, 0) && Genuine<T>([], collected)
  {
  }

  lemma GenuineAfterMiss<T>(placeholders: seq<Entry<T>>, results: seq<Entry<T>>, id: Id)
    requires Genuine(placeholders, results) && For(results, id) == []
    ensures Genuine(placeholders + [(id, NotFound(id))], results)
  {
  }

  lemma {:induction false} ForCountsIds<T>(s: seq<Entry<T>>, id: Id)
    ensures |For(s, id)| == Occurrences(Ids(s), id)
  {
    if s != [] {
      ForCountsIds(s[1..], id);
      assert Ids(s) == [s[0].0] + Ids(s[1..]);
    } else {
      assert Ids(s) == [];
    }
  }

  lemma {:induction false} SameEntriesSameCounts<T>(a: seq<Entry<T>>, b: seq<Entry<T>>, id: Id)
    requires multiset(a) == multiset(b)
    ensures |For(a, id)| == |For(b, id)|
    decreases |a|
  {
    if a == [] {
      assert |b| == |multiset(b)| == 0;
    } else {
      assert a[0] in multiset(b);
      var j :| 0 <= j < |b| && b[j] == a[0];
      MultisetWithout(a, 0);
      MultisetWithout(b, j);
      assert Without(a, 0) == a[1..];
      Cancel(multiset(a[1..]), multiset(Without(b, j)), a[0]);
      SameEntriesSameCounts(a[1..], Without(b, j), id);
      assert b == b[..j] + ([b[j]] + b[j + 1..]);
      ForConcat(b[..j], [b[j]] + b[j + 1..], id);
      ForConcat(b[..j], b[j + 1..], id);
      assert ([b[j]] + b[j + 1..])[1..] == b[j + 1..];
    }
  }

  // ---------------------------------------------------------------------------
  // The whole batch
  // ---------------------------------------------------------------------------

  /** How the task of each request ends; `None` is a panic. */
  type Outcomes<T> = seq<Option<Fetched<T>>>

  /** What a finished task delivers to the collector. */
  function Delivered<T>(id: Id, outcome: Option<Fetched<T>>): Entry<T> {
    match outcome
    case Some(fetched) => (id, fetched)
    case None => ("", JoinError)
  }

  function Deliveries<T>(ids: seq<Id>, outcomes: Outcomes<T>): seq<Entry<T>>
    requires |ids| == |outcomes|
  {
    seq(|ids|, k requires 0 <= k < |ids| => Delivered(ids[k], outcomes[k]))
  }

  /** The tasks for `id` that did not panic. */
  function Survivors<T>(ids: seq<Id>, outcomes: Outcomes<T>, id: Id): nat
    requires |ids| == |outcomes|
  {
    if ids == [] then 0
    else (if ids[0] == id && outcomes[0].Some? then 1 else 0) + Survivors(ids[1..], outcomes[1..], id)
  }

  predicate NonePanicked<T>(outcomes: Outcomes<T>) {
    forall k :: 0 <= k < |outcomes| ==> outcomes[k].Some?
  }

  function Panics<T>(outcomes: Outcomes<T>): nat {
    if outcomes == [] then 0 else (if outcomes[0].None? then 1 else 0) + Panics(outcomes[1..])
  }

  /** The entries collected under an id: anonymous join errors are collected under the empty one. */
  function Collected<T>(ids: seq<Id>, outcomes: Outcomes<T>, id: Id): nat
    requires |ids| == |outcomes|
  {
    Survivors(ids, outcomes, id) + if id == "" then Panics(outcomes) else 0
  }

  lemma {:induction false} DeliveriesCount<T>(ids: seq<Id>, outcomes: Outcomes<T>, id: Id)
    requires |ids| == |outcomes|
    ensures |For(Deliveries(ids, outcomes), id)| == Collected(ids, outcomes, id)
    ensures Survivors(ids, outcomes, id) <= Occurrences(ids, id)
    ensures NonePanicked(outcomes) ==> Collected(ids, outcomes, id) == Occurrences(ids, id)
  {
    if ids != [] {
      assert Deliveries(ids, outcomes)[1..] == Deliveries(ids[1..], outcomes[1..]);
      DeliveriesCount(ids[1..], outcomes[1..], id);
      assert ids == [ids[0]] + ids[1..];
    }
  }

  /**
   `batch_download_records` for any ids, task outcomes and completion order: the k-th entry answers
   the k-th request; as many requests for an id receive a collected entry as tasks for it survived,
   and only the others a not-found error; without panics the entries are exactly the tasks' results.
   Distinct requests use distinct collected entries. Requests for the empty id also pick up the
   anonymous join errors of other tasks.
   */
  method BatchDownloadRecords<T(==, !new)>(ids: seq<Id>, outcomes: Outcomes<T>, completed: seq<Entry<T>>)
    returns (ordered: seq<Entry<T>>)
    requires |ids| == |outcomes|
    requires multiset(completed) == multiset(Deliveries(ids, outcomes))
    ensures |ordered| == |ids| && forall k :: 0 <= k < |ids| ==> ordered[k].0 == ids[k]
    ensures forall k :: 0 <= k < |ids| ==>
              if Occurrences(ids[..k], ids[k]) < Collected(ids, outcomes, ids[k])
              then ordered[k] in Deliveries(ids, outcomes)
              else ordered[k].1 == NotFound(ids[k])
    ensures forall e: Entry<T> :: !e.1.NotFound? ==> multiset(ordered)[e] <= multiset(Deliveries(ids, outcomes))[e]
    ensures NonePanicked(outcomes) ==> multiset(ordered) == multiset(Deliveries(ids, outcomes))
  {
    var results := [];
    for i := 0 to |completed|
      invariant results == completed[..i]
    {
      results := results + [completed[i]];
    }
    assert results == completed;
    ghost var left, placeholders;
    ordered, left, placeholders := Reorder(ids, results);
    forall k | 0 <= k < |ids|
      ensures if Occurrences(ids[..k], ids[k]) < Collected(ids, outcomes, ids[k])
              then ordered[k] in Deliveries(ids, outcomes)
              else ordered[k].1 == NotFound(ids[k])
    {
      SameEntriesSameCounts(results, Deliveries(ids, outcomes), ids[k]);
      DeliveriesCount(ids, outcomes, ids[k]);
      if Occurrences(ids[..k], ids[k]) < Collected(ids, outcomes, ids[k]) {
        ForSelects(results, ids[k], Occurrences(ids[..k], ids[k]));
        assert ordered[k] in multiset(results);
      }
    }
    forall e: Entry<T> | !e.1.NotFound? ensures multiset(ordered)[e] <= multiset(Deliveries(ids, outcomes))[e] {
      NoEntryTwice(results, ordered, left, placeholders, e);
    }
    if NonePanicked(outcomes) {
      NothingLeft(ids, outcomes, results, ordered, left, placeholders);
    }
  }

  /** Placeholders apart, no collected entry is used more often than it was collected. */
  lemma NoEntryTwice<T>(results: seq<Entry<T>>, ordered: seq<Entry<T>>, left: seq<Entry<T>>,
                        placeholders: seq<Entry<T>>, e: Entry<T>)
    requires multiset(ordered) + multiset(left) == multiset(results) + multiset(placeholders)
    requires Genuine(placeholders, left) && !e.1.NotFound?
    ensures multiset(ordered)[e] <= multiset(results)[e]
  {
    assert e !in placeholders;
    assert (multiset(ordered) + multiset(left))[e] == (multiset(results) + multiset(placeholders))[e];
  }

  lemma {:induction false} ForSelects<T>(s: seq<Entry<T>>, id: Id, n: nat)
    requires n < |For(s, id)|
    ensures For(s, id)[n] in s
  {
    if s[0].0 != id {
      ForSelects(s[1..], id, n);
    } else if n > 0 {
      ForSelects(s[1..], id, n - 1);
    }
  }

  /** Without panics every request finds its result, so no placeholder is made and nothing is left. */
  lemma NothingLeft<T>(ids: seq<Id>, outcomes: Outcomes<T>, results: seq<Entry<T>>,
                       ordered: seq<Entry<T>>, left: seq<Entry<T>>, placeholders: seq<Entry<T>>)
    requires |ids| == |outcomes| == |ordered| && NonePanicked(outcomes)
    requires forall k :: 0 <= k < |ids| ==> ordered[k].0 == ids[k]
    requires multiset(results) == multiset(Deliveries(ids, outcomes))
    requires multiset(ordered) + multiset(left) == multiset(results) + multiset(placeholders)
    requires Genuine(placeholders, left)
    ensures placeholders == [] && left == [] && multiset(ordered) == multiset(results)
  {
    assert |multiset(results)| == |results| && |multiset(Deliveries(ids, outcomes))| == |ids|;
    assert |multiset(ordered) + multiset(left)| == |ordered| + |left|;
    assert |multiset(results) + multiset(placeholders)| == |results| + |placeholders|;
    if placeholders != [] {
      var id := placeholders[0].0;
      assert placeholders[0] in placeholders;
      assert Ids(ordered) == ids;
      assert multiset(ordered + left) == multiset(results + placeholders);
      SameEntriesSameCounts(ordered + left, results + placeholders, id);
      ForConcat(ordered, left, id);
      ForConcat(results, placeholders, id);
      ForCountsIds(ordered, id);
      ForNone(placeholders, id);
      SameEntriesSameCounts(results, Deliveries(ids, outcomes), id);
      DeliveriesCount(ids, outcomes, id);
      assert false;
    }
    assert placeholders == [] && left == [];
    assert multiset(ordered) == multiset(ordered) + multiset(left);
    assert multiset(results) == multiset(results) + multiset(placeholders);
  }

  /** If fetching is a function of the id, every request gets precisely its own record. */
  lemma SteadyStoreAnswersEachRequest<T>(ids: seq<Id>, fetch: Id -> Fetched<T>, ordered: seq<Entry<T>>)
    requires |ordered| == |ids| && forall k :: 0 <= k < |ids| ==> ordered[k].0 == ids[k]
    requires multiset(ordered)
      == multiset(Deliveries(ids, seq(|ids|, k requires 0 <= k < |ids| => Some(fetch(ids[k])))))
    ensures forall k :: 0 <= k < |ids| ==> ordered[k] == (ids[k], fetch(ids[k]))
  {
    var deliveries := Deliveries(ids, seq(|ids|, k requires 0 <= k < |ids| => Some(fetch(ids[k]))));
    forall k | 0 <= k < |ids| ensures ordered[k] == (ids[k], fetch(ids[k])) {
      assert ordered[k] in multiset(ordered);
      assert ordered[k] in deliveries;
    }
  }
}
