/**
 Health checks over whole runs: which records a check sends to the breach service, what it writes
 back, and how long a known-compromised record stays known. Checks run in the background, so any
 number of them may be in flight at once, and other code may edit other records' rows meanwhile.
 */
module HealthChecks {
  import opened Prelude
  import opened HealthReport

  type Password = string

  /** A vault record as the check sees it; `password` is `None` if it does not decrypt. */
  datatype VaultRecord = VaultRecord(id: Id, version: nat, deleted: bool, isLogin: bool, password: Option<Password>)

  datatype Entry = Entry(id: Id, password: Password)

  // ---------------------------------------------------------------------------
  // Local detection
  // ---------------------------------------------------------------------------

  /** The records with the given password, in order. */
  function Sharing(entries: seq<Entry>, password: Password): seq<Id> {
    if entries == [] then []
    else
      var n := |entries| - 1;
      Sharing(entries[..n], password) + if entries[n].password == password then [entries[n].id] else []
  }

  function GroupOf(groups: map<Password, seq<Id>>, password: Password): seq<Id> {
    if password in groups then groups[password] else []
  }

  /** The hash map of lists, each id pushed onto the list of its password. */
  method GroupByPassword(entries: seq<Entry>) returns (byPassword: map<Password, seq<Id>>)
    ensures forall p :: GroupOf(byPassword, p) == Sharing(entries, p)
  {
    byPassword := map[];
    for i := 0 to |entries|
      invariant forall p :: GroupOf(byPassword, p) == Sharing(entries[..i], p)
    {
      assert entries[..i + 1][..i] == entries[..i];
      var p := entries[i].password;
      byPassword := byPassword[p := GroupOf(byPassword, p) + [entries[i].id]];
    }
    assert entries[..|entries|] == entries;
  }

  /** Keep the groups of two or more, visiting the passwords in any order. */
  method LargeGroups(byPassword: map<Password, seq<Id>>) returns (groups: seq<seq<Id>>, ghost keys: seq<Password>)
    ensures |keys| == |groups| && forall i, j :: 0 <= i < j < |keys| ==> keys[i] != keys[j]
    ensures forall k :: 0 <= k < |groups| ==>
      keys[k] in byPassword && groups[k] == byPassword[keys[k]] && |groups[k]| >= 2
    ensures forall p :: p in byPassword && |byPassword[p]| >= 2 ==> p in keys
  {
    groups, keys := [], [];
    var rest := byPassword.Keys;
    while rest != {}
      invariant rest <= byPassword.Keys
      invariant |keys| == |groups| && forall i, j :: 0 <= i < j < |keys| ==> keys[i] != keys[j]
      invariant forall k :: 0 <= k < |groups| ==>
        keys[k] in byPassword && keys[k] !in rest && groups[k] == byPassword[keys[k]] && |groups[k]| >= 2
      invariant forall p :: p in byPassword && |byPassword[p]| >= 2 ==> p in keys || p in rest
      decreases |rest|
    {
      var p :| p in rest;
      rest := rest - {p};
      if |byPassword[p]| >= 2 {
        groups := groups + [byPassword[p]];
        keys := keys + [p];
      }
    }
  }

  /** The groups are the lists of records sharing a password, one for each password of two or more records. */
  ghost predicate GroupsByPassword(entries: seq<Entry>, groups: seq<seq<Id>>) {
    && (forall g :: g in groups ==> |g| >= 2 && exists p :: g == Sharing(entries, p))
    && (forall p :: |Sharing(entries, p)| >= 2 ==> Sharing(entries, p) in groups)
  }

  /** Two records are in a group together exactly when their passwords are equal. */
  ghost predicate GroupedIffEqual(entries: seq<Entry>, groups: seq<seq<Id>>) {
    forall a, b :: 0 <= a < b < |entries| ==>
      (entries[a].password == entries[b].password <==>
       exists g :: g in groups && entries[a].id in g && entries[b].id in g)
  }

  lemma LargeGroupsByPassword(entries: seq<Entry>, byPassword: map<Password, seq<Id>>, groups: seq<seq<Id>>,
                              keys: seq<Password>)
    requires forall p :: GroupOf(byPassword, p) == Sharing(entries, p)
    requires |keys| == |groups|
    requires forall k :: 0 <= k < |groups| ==>
      keys[k] in byPassword && groups[k] == byPassword[keys[k]] && |groups[k]| >= 2
    requires forall p :: p in byPassword && |byPassword[p]| >= 2 ==> p in keys
    ensures GroupsByPassword(entries, groups)
    ensures forall k :: 0 <= k < |groups| ==> groups[k] == Sharing(entries, keys[k])
    ensures forall p :: |Sharing(entries, p)| >= 2 ==> p in keys
  {
    hide Sharing;
    forall k | 0 <= k < |groups| ensures groups[k] == Sharing(entries, keys[k]) {
      assert GroupOf(byPassword, keys[k]) == Sharing(entries, keys[k]);
    }
    forall p | |Sharing(entries, p)| >= 2 ensures p in keys && Sharing(entries, p) in groups {
      assert GroupOf(byPassword, p) == Sharing(entries, p);
      var k :| 0 <= k < |keys| && keys[k] == p;
      assert groups[k] in groups;
    }
  }

  predicate DistinctEntries(entries: seq<Entry>) {
    forall i, j :: 0 <= i < j < |entries| ==> entries[i].id != entries[j].id
  }

  lemma {:induction false} SharingMembers(entries: seq<Entry>, password: Password)
    ensures forall id :: id in Sharing(entries, password) <==>
              exists k :: 0 <= k < |entries| && entries[k] == Entry(id, password)
    ensures DistinctEntries(entries) ==> NoRepeats(Sharing(entries, password))
  {
    if entries != [] {
      var n := |entries| - 1;
      var front := entries[..n];
      SharingMembers(front, password);
      forall id
        ensures id in Sharing(entries, password) <==>
          exists k :: 0 <= k < |entries| && entries[k] == Entry(id, password)
      {
        if k :| 0 <= k < |entries| && entries[k] == Entry(id, password) {
          if k < n { assert front[k] == Entry(id, password); }
        }
      }
      if DistinctEntries(entries) {
        assert forall k :: 0 <= k < n ==> front[k].id != entries[n].id;
        assert entries[n].id !in Sharing(front, password);
      }
    }
  }

  /**
   The detected groups satisfy what the stored projection relies on: they are disjoint, have at
   least two members and no repeats, and put two records together exactly when they share a password.
   */
  lemma DetectedGroupsAreProper(entries: seq<Entry>, groups: seq<seq<Id>>, keys: seq<Password>)
    requires DistinctEntries(entries) && |keys| == |groups|
    requires forall i, j :: 0 <= i < j < |keys| ==> keys[i] != keys[j]
    requires forall k :: 0 <= k < |groups| ==> groups[k] == Sharing(entries, keys[k]) && |groups[k]| >= 2
    requires forall p :: |Sharing(entries, p)| >= 2 ==> p in keys
    ensures ProperGroups(groups) && forall k :: 0 <= k < |groups| ==> NoRepeats(groups[k])
    ensures GroupedIffEqual(entries, groups)
  {
    hide Sharing;
    forall i, j | 0 <= i < j < |groups| ensures forall id :: id in groups[i] ==> id !in groups[j] {
      SharingMembers(entries, keys[i]);
      SharingMembers(entries, keys[j]);
    }
    forall k | 0 <= k < |groups| ensures NoRepeats(groups[k]) {
      SharingMembers(entries, keys[k]);
    }
    DetectedTogether(entries, groups, keys);
  }

  lemma DetectedTogether(entries: seq<Entry>, groups: seq<seq<Id>>, keys: seq<Password>)
    requires DistinctEntries(entries) && |keys| == |groups|
    requires forall k :: 0 <= k < |groups| ==> groups[k] == Sharing(entries, keys[k])
    requires forall p :: |Sharing(entries, p)| >= 2 ==> p in keys
    ensures GroupedIffEqual(entries, groups)
  {
    hide Sharing;
    forall a, b | 0 <= a < b < |entries|
      ensures entries[a].password == entries[b].password <==>
              exists g :: g in groups && entries[a].id in g && entries[b].id in g
    {
      var p := entries[a].password;
      SharingMembers(entries, p);
      if entries[b].password == p {
        var own := Sharing(entries, p);
        assert entries[a] == Entry(entries[a].id, p) && entries[b] == Entry(entries[b].id, p);
        TwoMembers(own, entries[a].id, entries[b].id);
        var k :| 0 <= k < |keys| && keys[k] == p;
        assert groups[k] in groups;
      }
      if g :| g in groups && entries[a].id in g && entries[b].id in g {
        var k :| 0 <= k < |groups| && groups[k] == g;
        SharingMembers(entries, keys[k]);
      }
    }
  }

  lemma TwoMembers(s: seq<Id>, a: Id, b: Id)
    requires a in s && b in s && a != b
    ensures |s| >= 2
  {
  }

  /**
   `detect_duplicate_passwords`: group by password and keep the groups of two or more, in no
   particular order. Entries of distinct records give groups as the stored projection relies on.
   */
  method DetectDuplicatePasswords(entries: seq<Entry>) returns (groups: seq<seq<Id>>)
    ensures GroupsByPassword(entries, groups)
    ensures DistinctEntries(entries) ==> ProperGroups(groups) && GroupedIffEqual(entries, groups)
    ensures DistinctEntries(entries) ==> forall k :: 0 <= k < |groups| ==> NoRepeats(groups[k])
  {
    hide Sharing, GroupsByPassword, GroupedIffEqual, ProperGroups, NoRepeats, DistinctEntries;
    var byPassword := GroupByPassword(entries);
    ghost var keys;
    groups, keys := LargeGroups(byPassword);
    LargeGroupsByPassword(entries, byPassword, groups, keys);
    if DistinctEntries(entries) { DetectedGroupsAreProper(entries, groups, keys); }
  }

  // ---------------------------------------------------------------------------
  // One check
  // ---------------------------------------------------------------------------

  predicate ShouldSkipHibp(state: Option<HealthState>, version: nat) {
    state.Some? && state.value.recordVersion == version && state.value.compromised == Some(true)
  }

  /** Collecting rows by record id: a later row replaces an earlier one. */
  function StateOf(rows: seq<HealthState>, id: Id): Option<HealthState> {
    if rows == [] then None
    else
      var last := rows[|rows| - 1];
      if last.recordId == id then Some(last) else StateOf(rows[..|rows| - 1], id)
  }

  /** The row of this record that counts: the last one. */
  predicate IsLastRow(rows: seq<HealthState>, k: int, id: Id) {
    0 <= k < |rows| && rows[k].recordId == id && forall j :: k < j < |rows| ==> rows[j].recordId != id
  }

  /** The stored row says that the record was compromised at this very version. */
  ghost predicate KnownCompromised(rows: seq<HealthState>, id: Id, v: nat) {
    exists k :: IsLastRow(rows, k, id) && rows[k].recordVersion == v && rows[k].compromised == Some(true)
  }

  lemma {:induction false} StateOfIsLast(rows: seq<HealthState>, id: Id)
    ensures StateOf(rows, id).Some? <==> exists k :: IsLastRow(rows, k, id)
    ensures forall k :: IsLastRow(rows, k, id) ==> StateOf(rows, id) == Some(rows[k])
  {
    if rows != [] {
      var n := |rows| - 1;
      var front := rows[..n];
      StateOfIsLast(front, id);
      if rows[n].recordId == id {
        assert IsLastRow(rows, n, id);
      } else {
        assert forall k :: IsLastRow(rows, k, id) <==> IsLastRow(front, k, id);
      }
    }
  }

  /** A record may be skipped exactly if it is known compromised at its present version. */
  lemma SkipIffKnown(rows: seq<HealthState>, id: Id, v: nat)
    ensures ShouldSkipHibp(StateOf(rows, id), v) <==> KnownCompromised(rows, id, v)
  {
    StateOfIsLast(rows, id);
    hide StateOf;
    if StateOf(rows, id).Some? {
      var k :| IsLastRow(rows, k, id);
      assert StateOf(rows, id) == Some(rows[k]);
      assert forall j :: IsLastRow(rows, j, id) ==> j == k;
    }
  }

  function VersionOf(records: seq<VaultRecord>, id: Id): nat {
    if records == [] then 0
    else
      var last := records[|records| - 1];
      if last.id == id then last.version else VersionOf(records[..|records| - 1], id)
  }

  predicate Skips(records: seq<VaultRecord>, rows: seq<HealthState>, id: Id) {
    ShouldSkipHibp(StateOf(rows, id), VersionOf(records, id))
  }

  function Skippable(records: seq<VaultRecord>, rows: seq<HealthState>): Id -> bool {
    (id: Id) => Skips(records, rows, id)
  }

  function Unskippable(records: seq<VaultRecord>, rows: seq<HealthState>): Id -> bool {
    (id: Id) => !Skips(records, rows, id)
  }

  function Decrypted(records: seq<VaultRecord>): seq<Entry> {
    if records == [] then []
    else
      var n := |records| - 1;
      var r := records[n];
      Decrypted(records[..n]) +
        if !r.deleted && r.isLogin && r.password.Some? then [Entry(r.id, r.password.value)] else []
  }

  function Chosen(entries: seq<Entry>, wanted: Id -> bool): seq<Id> {
    if entries == [] then []
    else
      var n := |entries| - 1;
      Chosen(entries[..n], wanted) + if wanted(entries[n].id) then [entries[n].id] else []
  }

  /**
   `partition_entries_for_hibp`, with the two lookup maps as functions: every entry goes to exactly
   one side, in order, and is skipped precisely if its stored row says so.
   */
  method PartitionEntriesForHibp(entries: seq<Entry>, records: seq<VaultRecord>, rows: seq<HealthState>)
    returns (skipped: seq<Id>, toCheck: seq<Entry>)
    ensures skipped == Chosen(entries, Skippable(records, rows))
    ensures IdsOf(toCheck) == Chosen(entries, Unskippable(records, rows)) && forall e :: e in toCheck ==> e in entries
    ensures forall id :: id in skipped <==>
              KnownCompromised(rows, id, VersionOf(records, id)) &&
              exists k :: 0 <= k < |entries| && entries[k].id == id
  {
    hide ShouldSkipHibp, StateOf, VersionOf;
    skipped, toCheck := [], [];
    for i := 0 to |entries|
      invariant skipped == Chosen(entries[..i], Skippable(records, rows))
      invariant IdsOf(toCheck) == Chosen(entries[..i], Unskippable(records, rows))
      invariant forall e :: e in toCheck ==> e in entries
    {
      assert entries[..i + 1][..i] == entries[..i];
      var version := VersionOf(records, entries[i].id);
      if ShouldSkipHibp(StateOf(rows, entries[i].id), version) {
        skipped := skipped + [entries[i].id];
      } else {
        assert IdsOf(toCheck + [entries[i]]) == IdsOf(toCheck) + [entries[i].id];
        toCheck := toCheck + [entries[i]];
      }
    }
    assert entries[..|entries|] == entries;
    ChosenMembers(entries, Skippable(records, rows));
    forall id ensures Skips(records, rows, id) <==> KnownCompromised(rows, id, VersionOf(records, id)) {
      SkipIffKnown(rows, id, VersionOf(records, id));
    }
  }

  /** The two sides of the partition make up the entries. */
  lemma {:induction false} PartitionIsComplete(entries: seq<Entry>, records: seq<VaultRecord>, rows: seq<HealthState>)
    ensures multiset(Chosen(entries, Skippable(records, rows))) + multiset(Chosen(entries, Unskippable(records, rows)))
         == multiset(IdsOf(entries))
  {
    if entries != [] {
      hide Chosen, Skips, IdsOf;
      var n := |entries| - 1;
      var front, id := entries[..n], entries[n].id;
      PartitionIsComplete(front, records, rows);
      ChosenSnoc(entries, Skippable(records, rows));
      ChosenSnoc(entries, Unskippable(records, rows));
      IdsSnoc(entries);
      EitherSide(Chosen(front, Skippable(records, rows)), Chosen(front, Unskippable(records, rows)), IdsOf(front), id);
    }
  }

  lemma {:induction false} ChosenSnoc(entries: seq<Entry>, wanted: Id -> bool)
    requires entries != []
    ensures var front, last := entries[..|entries| - 1], entries[|entries| - 1].id;
            Chosen(entries, wanted) == if wanted(last) then Chosen(front, wanted) + [last] else Chosen(front, wanted)
  {
    assert Chosen(entries[..|entries| - 1], wanted) + [] == Chosen(entries[..|entries| - 1], wanted);
  }

  lemma {:induction false} IdsSnoc(entries: seq<Entry>)
    requires entries != []
    ensures IdsOf(entries) == IdsOf(entries[..|entries| - 1]) + [entries[|entries| - 1].id]
  {
  }

  lemma EitherSide(a: seq<Id>, b: seq<Id>, all: seq<Id>, id: Id)
    requires multiset(a) + multiset(b) == multiset(all)
    ensures multiset(a + [id]) + multiset(b) == multiset(all + [id])
    ensures multiset(a) + multiset(b + [id]) == multiset(all + [id])
  {
  }

  function IdsOf(entries: seq<Entry>): (ids: seq<Id>)
    ensures |ids| == |entries|
  {
    seq(|entries|, k requires 0 <= k < |entries| => entries[k].id)
  }

  datatype Answer = Pwned | Clean | Unavailable

  function PwnedAmong(ids: seq<Id>, answers: Id -> Answer): seq<Id> {
    if ids == [] then []
    else
      var n := |ids| - 1;
      PwnedAmong(ids[..n], answers) + if answers(ids[n]).Pwned? then [ids[n]] else []
  }

  /**
   The background loop: start from the skipped records and ask the service about the others one by
   one; an error counts as no finding. Cancellation or a closed channel noticed after `stopAfter`
   calls, even after the last of them, ends the check without a report.
   */
  method CheckLoop(skipped: seq<Id>, toCheck: seq<Id>, answers: Id -> Answer, stopAfter: Option<nat>)
    returns (compromised: Option<seq<Id>>, calls: seq<Id>)
    ensures var stopped := stopAfter.Some? && stopAfter.value <= |toCheck|;
            && (stopped ==> compromised == None && calls == toCheck[..stopAfter.value])
            && (!stopped ==> compromised == Some(skipped + PwnedAmong(toCheck, answers)) && calls == toCheck)
  {
    var found := skipped;
    var i := 0;
    calls := [];
    while true
      invariant i <= |toCheck| && calls == toCheck[..i]
      invariant found == skipped + PwnedAmong(toCheck[..i], answers)
      invariant stopAfter.Some? ==> i <= stopAfter.value
      decreases |toCheck| - i
    {
      if stopAfter == Some(i) {
        return None, calls;
      }
      if i == |toCheck| {
        break;
      }
      assert toCheck[..i + 1][..i] == toCheck[..i];
      calls := calls + [toCheck[i]];
      if answers(toCheck[i]).Pwned? {
        found := found + [toCheck[i]];
      }
      i := i + 1;
    }
    assert toCheck[..|toCheck|] == toCheck;
    compromised := Some(found);
  }

  // ---------------------------------------------------------------------------
  // Runs of overlapping checks
  // ---------------------------------------------------------------------------

  /** What a check carries from its start: its local findings and its two halves of the entries. */
  datatype Pending = Pending(weak: seq<Id>, duplicates: seq<seq<Id>>, expired: seq<Id>, total: nat,
                             skipped: seq<Id>, toCheck: seq<Id>)

  datatype Findings = Findings(weak: seq<Id>, duplicates: seq<seq<Id>>, expired: seq<Id>)

  datatype State = State(rows: seq<HealthState>, pending: map<nat, Pending>, calls: seq<(nat, Id)>)

  datatype Event =
    | Begin(check: nat, records: seq<VaultRecord>, rowsReadable: bool, findings: Findings)
    | Finish(check: nat, answers: Id -> Answer, records: seq<VaultRecord>, evaluatedAt: int, stored: bool)
    | Cancel(check: nat, after: nat)
    | Upsert(row: HealthState)      // another writer, such as a sync download
    | Drop(id: Id)

  function BeginCheck(rows: seq<HealthState>, records: seq<VaultRecord>, rowsReadable: bool, f: Findings): Pending {
    var known := if rowsReadable then rows else [];
    var entries := Decrypted(records);
    Pending(f.weak, f.duplicates, f.expired, |entries|,
            Chosen(entries, Skippable(records, known)), Chosen(entries, Unskippable(records, known)))
  }

  function ReportOf(p: Pending, answers: Id -> Answer): Report {
    Report(p.weak, p.duplicates, p.skipped + PwnedAmong(p.toCheck, answers), p.expired, p.total)
  }

  function Stamps(records: seq<VaultRecord>): (s: seq<StoredRecord>)
    ensures |s| == |records|
  {
    seq(|records|, k requires 0 <= k < |records| => StoredRecord(records[k].id, records[k].version))
  }

  function Logged(check: nat, ids: seq<Id>): seq<(nat, Id)> {
    seq(|ids|, k requires 0 <= k < |ids| => (check, ids[k]))
  }

  function WithoutRow(rows: seq<HealthState>, id: Id): seq<HealthState> {
    if rows == [] then []
    else
      var n := |rows| - 1;
      WithoutRow(rows[..n], id) + if rows[n].recordId == id then [] else [rows[n]]
  }

  function Next(s: State, e: Event): State {
    match e
    case Begin(c, records, readable, findings) =>
      if c in s.pending then s
      else s.(pending := s.pending[c := BeginCheck(s.rows, records, readable, findings)])
    case Finish(c, answers, records, evaluatedAt, stored) =>
      if c !in s.pending then s
      else
        var p := s.pending[c];
        State(if stored then Rows(Stamps(records), ReportOf(p, answers), evaluatedAt) else s.rows,
              s.pending - {c}, s.calls + Logged(c, p.toCheck))
    case Cancel(c, done) =>
      if c !in s.pending then s
      else
        var ids := s.pending[c].toCheck;
        s.(pending := s.pending - {c}, calls := s.calls + Logged(c, ids[..if done < |ids| then done else |ids|]))
    case Upsert(row) => s.(rows := WithoutRow(s.rows, row.recordId) + [row])
    case Drop(id) => s.(rows := WithoutRow(s.rows, id))
  }

  function Run(s: State, run: seq<Event>): State {
    if run == [] then s else Next(Run(s, run[..|run| - 1]), run[|run| - 1])
  }

  /** The record is live, decryptable and at version v in the listing. */
  predicate Holds(records: seq<VaultRecord>, id: Id, v: nat) {
    && (forall i, j :: 0 <= i < j < |records| ==> records[i].id != records[j].id)
    && exists k :: 0 <= k < |records| && IsLive(records[k], id, v)
  }

  predicate IsLive(r: VaultRecord, id: Id, v: nat) {
    r.id == id && r.version == v && !r.deleted && r.isLogin && r.password.Some?
  }

  predicate Stamped(records: seq<VaultRecord>, id: Id, v: nat) {
    && (forall i, j :: 0 <= i < j < |records| ==> records[i].id != records[j].id)
    && exists k :: 0 <= k < |records| && records[k].id == id && records[k].version == v
  }

  /** The version is v whenever a check looks, the stored rows can be read, and nobody else edits this row. */
  predicate SteadyEvent(e: Event, id: Id, v: nat) {
    match e
    case Begin(_, records, readable, _) => readable && Holds(records, id, v)
    case Finish(_, _, records, _, _) => Stamped(records, id, v)
    case Cancel(_, _) => true
    case Upsert(row) => row.recordId != id
    case Drop(other) => other != id
  }

  predicate Steady(run: seq<Event>, id: Id, v: nat) {
    forall k :: 0 <= k < |run| ==> SteadyEvent(run[k], id, v)
  }

  ghost predicate Protected(s: State, id: Id, v: nat) {
    && KnownCompromised(s.rows, id, v)
    && forall c :: c in s.pending ==> id in s.pending[c].skipped && id !in s.pending[c].toCheck
  }

  lemma {:induction false} ChosenMembers(entries: seq<Entry>, wanted: Id -> bool)
    ensures forall id :: id in Chosen(entries, wanted) <==>
      wanted(id) && exists k :: 0 <= k < |entries| && entries[k].id == id
  {
    if entries != [] {
      var n := |entries| - 1;
      var front := entries[..n];
      ChosenMembers(front, wanted);
      forall id
        ensures id in Chosen(entries, wanted) <==> wanted(id) && exists k :: 0 <= k < |entries| && entries[k].id == id
      {
        if k :| 0 <= k < |entries| && entries[k].id == id {
          if k < n { assert front[k].id == id; }
        }
      }
    }
  }

  lemma {:induction false} LiveRecordIsDecrypted(records: seq<VaultRecord>, id: Id, v: nat)
    requires Holds(records, id, v)
    ensures exists k :: 0 <= k < |Decrypted(records)| && Decrypted(records)[k].id == id
    ensures VersionOf(records, id) == v
  {
    var n := |records| - 1;
    var front := records[..n];
    var k :| 0 <= k < |records| && IsLive(records[k], id, v);
    if k < n {
      assert front[k] == records[k];
      LiveRecordIsDecrypted(front, id, v);
      var j :| 0 <= j < |Decrypted(front)| && Decrypted(front)[j].id == id;
      assert Decrypted(records)[j].id == id;
    } else {
      assert Decrypted(records)[|Decrypted(records)| - 1].id == id;
    }
  }

  lemma {:induction false} PwnedMembers(ids: seq<Id>, answers: Id -> Answer)
    ensures forall id :: id in PwnedAmong(ids, answers) <==> id in ids && answers(id).Pwned?
  {
    if ids != [] {
      var n := |ids| - 1;
      PwnedMembers(ids[..n], answers);
      assert ids == ids[..n] + [ids[n]];
    }
  }

  lemma {:induction false} StateOfRows(records: seq<VaultRecord>, report: Report, at: int, id: Id, v: nat)
    requires Stamped(records, id, v)
    ensures StateOf(Rows(Stamps(records), report, at), id) == Some(Row(StoredRecord(id, v), report, at))
  {
    var n := |records| - 1;
    var rows := Rows(Stamps(records), report, at);
    var k :| 0 <= k < |records| && records[k].id == id && records[k].version == v;
    if k < n {
      var front := records[..n];
      assert front[k] == records[k];
      StateOfRows(front, report, at, id, v);
      assert rows[..n] == Rows(Stamps(front), report, at);
      assert records[n].id != id;
    }
  }

  lemma {:induction false} OtherRowsKept(rows: seq<HealthState>, id: Id, other: Id)
    requires id != other
    ensures StateOf(WithoutRow(rows, other), id) == StateOf(rows, id)
  {
    if rows != [] {
      var n := |rows| - 1;
      OtherRowsKept(rows[..n], id, other);
      if rows[n].recordId != other {
        var kept := WithoutRow(rows[..n], other) + [rows[n]];
        assert kept[..|kept| - 1] == WithoutRow(rows[..n], other);
      } else {
        assert WithoutRow(rows, other) == WithoutRow(rows[..n], other);
      }
    }
  }

  /**
   What a finished check writes about a record is decided by that check alone: the record comes out
   compromised exactly when the check had skipped it or the service reported it. An unavailable
   service, or a record that was not decrypted, clears the flag.
   */
  lemma FinishDecides(s: State, e: Event, id: Id, v: nat)
    requires e.Finish? && e.stored && e.check in s.pending && Stamped(e.records, id, v)
    ensures var p := s.pending[e.check];
            KnownCompromised(Next(s, e).rows, id, v) <==>
            id in p.skipped || (id in p.toCheck && e.answers(id).Pwned?)
  {
    var p := s.pending[e.check];
    StateOfRows(e.records, ReportOf(p, e.answers), e.evaluatedAt, id, v);
    PwnedMembers(p.toCheck, e.answers);
    SkipIffKnown(Next(s, e).rows, id, v);
    hide StateOf, KnownCompromised;
  }

  lemma {:induction false} DecryptedMembers(records: seq<VaultRecord>, id: Id)
    ensures (exists k :: 0 <= k < |Decrypted(records)| && Decrypted(records)[k].id == id) <==>
            exists k :: 0 <= k < |records| && IsLive(records[k], id, records[k].version)
  {
    if records != [] {
      var n := |records| - 1;
      var front := records[..n];
      DecryptedMembers(front, id);
      var entries, earlier := Decrypted(records), Decrypted(front);
      assert forall k :: 0 <= k < |earlier| ==> entries[k] == earlier[k];
      assert forall k :: 0 <= k < n ==> front[k] == records[k];
      if IsLive(records[n], id, records[n].version) { assert entries[|earlier|].id == id; }
      if k :| 0 <= k < |records| && IsLive(records[k], id, records[k].version) && k < n {
        var j :| 0 <= j < |earlier| && earlier[j].id == id;
        assert entries[j].id == id;
      }
    }
  }

  /**
   A check with readable rows skips a live record exactly if it is known compromised at its version,
   and else asks.
   */
  lemma BeginSplits(rows: seq<HealthState>, records: seq<VaultRecord>, f: Findings, id: Id, v: nat)
    requires Holds(records, id, v)
    ensures var p := BeginCheck(rows, records, true, f);
            && (id in p.skipped <==> KnownCompromised(rows, id, v))
            && (id in p.toCheck <==> !KnownCompromised(rows, id, v))
  {
    LiveRecordIsDecrypted(records, id, v);
    SkipIffKnown(rows, id, v);
    ChosenMembers(Decrypted(records), Skippable(records, rows));
    ChosenMembers(Decrypted(records), Unskippable(records, rows));
    hide KnownCompromised, StateOf, VersionOf, Decrypted, Chosen;
  }

  /** Deleted records, other credentials and passwords that do not decrypt are neither skipped nor asked about. */
  lemma OthersAreLeftOut(rows: seq<HealthState>, records: seq<VaultRecord>, readable: bool, f: Findings, id: Id)
    requires forall k :: 0 <= k < |records| ==> !IsLive(records[k], id, records[k].version)
    ensures var p := BeginCheck(rows, records, readable, f); id !in p.skipped && id !in p.toCheck
  {
    DecryptedMembers(records, id);
    var known := if readable then rows else [];
    ChosenMembers(Decrypted(records), Skippable(records, known));
    ChosenMembers(Decrypted(records), Unskippable(records, known));
  }

  /**
   Over any interleaving of checks, answers, cancellations and edits of other rows: a live,
   decryptable login record known compromised at version v, with no check in flight that missed it,
   stays known compromised and causes no call to the breach service while its version stays v.
   */
  lemma {:induction false} CompromisedStaysKnown(s: State, run: seq<Event>, id: Id, v: nat)
    requires Protected(s, id, v) && Steady(run, id, v)
    ensures Protected(Run(s, run), id, v)
    ensures forall c :: (c, id) in Run(s, run).calls ==> (c, id) in s.calls
  {
    if run != [] {
      var n := |run| - 1;
      var front, e := run[..n], run[n];
      assert SteadyEvent(e, id, v);
      CompromisedStaysKnown(s, front, id, v);
      ProtectedStep(Run(s, front), e, id, v);
    }
  }

  lemma ProtectedStep(s: State, e: Event, id: Id, v: nat)
    requires Protected(s, id, v) && SteadyEvent(e, id, v)
    ensures Protected(Next(s, e), id, v)
    ensures forall c :: (c, id) in Next(s, e).calls ==> (c, id) in s.calls
  {
    SkipIffKnown(s.rows, id, v);
    SkipIffKnown(Next(s, e).rows, id, v);
    hide KnownCompromised;
    match e {
      case Begin(c, records, readable, findings) =>
        BeginSplits(s.rows, records, findings, id, v);
      case Finish(c, answers, records, evaluatedAt, stored) =>
        if c in s.pending && stored { FinishDecides(s, e, id, v); }
      case Cancel(_, _) =>
      case Upsert(row) =>
        OtherRowsKept(s.rows, id, row.recordId);
        var kept := WithoutRow(s.rows, row.recordId) + [row];
        assert kept[..|kept| - 1] == WithoutRow(s.rows, row.recordId);
      case Drop(other) =>
        OtherRowsKept(s.rows, id, other);
    }
  }

  lemma {:induction false} RunsConcatenate(s: State, a: seq<Event>, b: seq<Event>)
    ensures Run(s, a + b) == Run(Run(s, a), b)
  {
    if b == [] {
      assert a + b == a;
    } else {
      var n := |b| - 1;
      assert (a + b)[..|a| + n] == a + b[..n];
      RunsConcatenate(s, a, b[..n]);
    }
  }

  /** The events leave this check alone. */
  predicate Elsewhere(run: seq<Event>, c: nat) {
    forall k :: 0 <= k < |run| ==> !((run[k].Finish? || run[k].Cancel?) && run[k].check == c)
  }

  lemma {:induction false} PendingIsKept(s: State, run: seq<Event>, c: nat)
    requires c in s.pending && Elsewhere(run, c)
    ensures var t := Run(s, run);
            && c in t.pending && t.pending[c] == s.pending[c]
            && forall id :: (c, id) in t.calls <==> (c, id) in s.calls
  {
    if run != [] {
      var n := |run| - 1;
      PendingIsKept(s, run[..n], c);
      assert run[n] in run;
    }
  }

  /**
   One whole check, whatever happens between its start and its end: what it stores of a record is
   what it found at its start, at the version it finds at its end. A live login record known
   compromised at its version is stored as compromised without a call; any other is asked about, and
   the answer alone decides, so that a changed version is always checked anew. A record that is no
   live login is not asked about and is stored as not compromised.
   */
  lemma WholeCheckDecides(s: State, first: Event, between: seq<Event>, last: Event, id: Id, v: nat, w: nat)
    requires first.Begin? && first.rowsReadable && first.check !in s.pending
    requires last.Finish? && last.check == first.check && last.stored && Stamped(last.records, id, w)
    requires Elsewhere(between, first.check)
    ensures var t := Run(s, [first] + between + [last]);
            && (exists k :: IsLastRow(t.rows, k, id) && t.rows[k].recordVersion == w
                            && t.rows[k].weakPassword == Some(id in first.findings.weak)
                            && t.rows[k].expired == Some(id in first.findings.expired)
                            && t.rows[k].duplicateGroupSize == LastGroupSize(first.findings.duplicates, id))
            && (Holds(first.records, id, v) ==>
                  && (KnownCompromised(t.rows, id, w) <==> KnownCompromised(s.rows, id, v) || last.answers(id).Pwned?)
                  && ((first.check, id) in t.calls <==>
                       (first.check, id) in s.calls || !KnownCompromised(s.rows, id, v)))
            && ((forall k :: 0 <= k < |first.records| ==> !IsLive(first.records[k], id, first.records[k].version)) ==>
                  && !KnownCompromised(t.rows, id, w)
                  && ((first.check, id) in t.calls <==> (first.check, id) in s.calls))
  {
    var c, begin := first.check, Next(s, first);
    var p := BeginCheck(s.rows, first.records, true, first.findings);
    RunsConcatenate(s, [first], between + [last]);
    RunsConcatenate(begin, between, [last]);
    assert [first] + between + [last] == [first] + (between + [last]);
    assert [first][..0] == [] && [last][..0] == [] && Run(s, [first]) == begin;
    PendingIsKept(begin, between, c);
    var before := Run(begin, between);
    FinishDecides(before, last, id, w);
    FinishStores(before, last, id, w);
    FinishCalls(before, last, id);
    if Holds(first.records, id, v) { BeginSplits(s.rows, first.records, first.findings, id, v); }
    if forall k :: 0 <= k < |first.records| ==> !IsLive(first.records[k], id, first.records[k].version) {
      OthersAreLeftOut(s.rows, first.records, true, first.findings, id);
    }
    assert Run(s, [first] + between + [last]) == Next(before, last);
    hide Run, Next, KnownCompromised, Holds, Elsewhere;
  }

  lemma FinishStores(s: State, e: Event, id: Id, w: nat)
    requires e.Finish? && e.stored && e.check in s.pending && Stamped(e.records, id, w)
    ensures var p, rows := s.pending[e.check], Next(s, e).rows;
            exists k :: IsLastRow(rows, k, id) && rows[k].recordVersion == w
                        && rows[k].weakPassword == Some(id in p.weak) && rows[k].expired == Some(id in p.expired)
                        && rows[k].duplicateGroupSize == LastGroupSize(p.duplicates, id)
  {
    var rows := Next(s, e).rows;
    StateOfRows(e.records, ReportOf(s.pending[e.check], e.answers), e.evaluatedAt, id, w);
    StateOfIsLast(rows, id);
    hide StateOf;
    var k :| IsLastRow(rows, k, id);
  }

  lemma FinishCalls(s: State, e: Event, id: Id)
    requires e.Finish? && e.check in s.pending
    ensures (e.check, id) in Next(s, e).calls <==> (e.check, id) in s.calls || id in s.pending[e.check].toCheck
  {
    var ids := s.pending[e.check].toCheck;
    var logged := Logged(e.check, ids);
    assert forall k :: 0 <= k < |ids| ==> logged[k] == (e.check, ids[k]);
    if id in ids {
      var k :| 0 <= k < |ids| && ids[k] == id;
      assert logged[k] == (e.check, id);
    }
  }

  /** In every run that is steady for the record, it stays known compromised and causes no call. */
  ghost predicate StaysKnown(s: State, id: Id, v: nat) {
    forall run :: Steady(run, id, v) ==>
      KnownCompromised(Run(s, run).rows, id, v) && forall c :: (c, id) !in Run(s, run).calls
  }

  /**
   Exactly when that holds of a record known compromised and never asked about so far: if and only if
   every check in flight has skipped it.
   */
  lemma StaysKnownIffProtected(s: State, id: Id, v: nat)
    requires KnownCompromised(s.rows, id, v) && forall c :: (c, id) !in s.calls
    ensures StaysKnown(s, id, v) <==> Protected(s, id, v)
  {
    if Protected(s, id, v) {
      forall run | Steady(run, id, v)
        ensures KnownCompromised(Run(s, run).rows, id, v) && forall c :: (c, id) !in Run(s, run).calls
      {
        CompromisedStaysKnown(s, run, id, v);
      }
    } else {
      var c :| c in s.pending && !(id in s.pending[c].skipped && id !in s.pending[c].toCheck);
      var run := MissingCheckHarms(s, c, id, v);
      assert Steady(run, id, v);
    }
  }

  /** One step of a check that did not skip the record asks about it or clears its flag. */
  lemma MissingCheckHarms(s: State, c: nat, id: Id, v: nat) returns (run: seq<Event>)
    requires c in s.pending && !(id in s.pending[c].skipped && id !in s.pending[c].toCheck)
    ensures Steady(run, id, v)
    ensures !KnownCompromised(Run(s, run).rows, id, v) || exists d :: (d, id) in Run(s, run).calls
  {
    var p := s.pending[c];
    if id in p.toCheck {
      run := [Cancel(c, |p.toCheck|)];
      assert run[..0] == [] && p.toCheck[..|p.toCheck|] == p.toCheck;
      var k :| 0 <= k < |p.toCheck| && p.toCheck[k] == id;
      assert Logged(c, p.toCheck)[k] == (c, id);
      assert (c, id) in Run(s, run).calls;
    } else {
      var records := [VaultRecord(id, v, false, true, None)];
      var clean: Id -> Answer := _ => Clean;
      run := [Finish(c, clean, records, 0, true)];
      assert run[..0] == [] && records[0].id == id && records[0].version == v;
      assert Stamped(records, id, v);
      FinishDecides(s, run[0], id, v);
    }
  }

  /**
   Readable rows are needed, too: a check that cannot read them asks again, and an unavailable service
   clears the flag.
   */
  lemma UnreadableRowsLoseFlag(s: State, c: nat, id: Id, v: nat, password: Password) returns (run: seq<Event>)
    requires Protected(s, id, v) && c !in s.pending
    ensures |run| == 2 && run[0].Begin? && !run[0].rowsReadable && Holds(run[0].records, id, v)
    ensures run[1].Finish? && SteadyEvent(run[1], id, v)
    ensures !KnownCompromised(Run(s, run).rows, id, v) && (c, id) in Run(s, run).calls
  {
    var records := [VaultRecord(id, v, false, true, Some(password))];
    var none := Findings([], [], []);
    var unavailable: Id -> Answer := _ => Unavailable;
    run := [Begin(c, records, false, none), Finish(c, unavailable, records, 0, true)];
    assert IsLive(records[0], id, v) && records[0].id == id && records[0].version == v;
    assert Holds(records, id, v) && Stamped(records, id, v);
    FirstCheckAsks(records, none, id, v);
    UnreadableBegins(s, c, records, none);
    assert run[..2] == run && run[..0] == [];
    Step(s, run, 0);
    Step(s, run, 1);
    var begun := Next(s, run[0]);
    FinishDecides(begun, run[1], id, v);
    var p := begun.pending[c];
    var k :| 0 <= k < |p.toCheck| && p.toCheck[k] == id;
    assert Logged(c, p.toCheck)[k] == (c, id);
  }

  /** A check that cannot read the rows proceeds as if none were stored. */
  lemma UnreadableBegins(s: State, c: nat, records: seq<VaultRecord>, f: Findings)
    requires c !in s.pending
    ensures Next(s, Begin(c, records, false, f)).pending == s.pending[c := BeginCheck([], records, true, f)]
  {
  }

  /**
   The proviso about checks in flight is needed. Of two overlapping checks the second finds the
   record and stores it; then the first, started before that and met by an unavailable service,
   overwrites it, although the version never changed.
   */
  lemma OverlappingCheckClearsFlag(id: Id, v: nat, password: Password) returns (run: seq<Event>)
    ensures Steady(run, id, v) && |run| == 4
    ensures KnownCompromised(Run(State([], map[], []), run[..3]).rows, id, v)
    ensures !KnownCompromised(Run(State([], map[], []), run).rows, id, v)
  {
    hide Run, Next, BeginCheck, KnownCompromised;
    var records := [VaultRecord(id, v, false, true, Some(password))];
    var none := Findings([], [], []);
    var pwned: Id -> Answer, unavailable: Id -> Answer := _ => Pwned, _ => Unavailable;
    run := [Begin(1, records, true, none), Begin(2, records, true, none),
            Finish(2, pwned, records, 0, true), Finish(1, unavailable, records, 0, true)];
    assert IsLive(records[0], id, v);
    assert Holds(records, id, v) && Stamped(records, id, v);
    hide Holds, Stamped;
    OverlapEnds(run, records, none, id, v, pwned, unavailable);
  }

  lemma OverlapEnds(run: seq<Event>, records: seq<VaultRecord>, f: Findings, id: Id, v: nat,
                    pwned: Id -> Answer, unavailable: Id -> Answer)
    requires run == [Begin(1, records, true, f), Begin(2, records, true, f),
                     Finish(2, pwned, records, 0, true), Finish(1, unavailable, records, 0, true)]
    requires Holds(records, id, v) && Stamped(records, id, v)
    requires pwned(id) == Pwned && unavailable(id) == Unavailable
    ensures KnownCompromised(Run(State([], map[], []), run[..3]).rows, id, v)
    ensures !KnownCompromised(Run(State([], map[], []), run).rows, id, v)
  {
    hide Run, Next, BeginCheck, KnownCompromised, Holds, Stamped;
    var s0 := State([], map[], []);
    assert run[..4] == run;
    FirstCheckAsks(records, f, id, v);
    TwoChecksBegun(s0, run, records, f);
    Step(s0, run, 2);
    Step(s0, run, 3);
    StaleFinishOverwrites(Run(s0, run[..2]), BeginCheck([], records, true, f), records, id, v, pwned, unavailable);
  }

  lemma StaleFinishOverwrites(s: State, p: Pending, records: seq<VaultRecord>, id: Id, v: nat,
                              pwned: Id -> Answer, unavailable: Id -> Answer)
    requires s.pending == map[1 := p, 2 := p] && id in p.toCheck && id !in p.skipped && Stamped(records, id, v)
    requires pwned(id) == Pwned && unavailable(id) == Unavailable
    ensures var s' := Next(s, Finish(2, pwned, records, 0, true));
            KnownCompromised(s'.rows, id, v)
            && !KnownCompromised(Next(s', Finish(1, unavailable, records, 0, true)).rows, id, v)
  {
    var first, second := Finish(2, pwned, records, 0, true), Finish(1, unavailable, records, 0, true);
    FinishLeaves(s, first);
    FinishDecides(s, first, id, v);
    FinishDecides(Next(s, first), second, id, v);
  }

  lemma TwoChecksBegun(s: State, run: seq<Event>, records: seq<VaultRecord>, f: Findings)
    requires |run| >= 2 && s.pending == map[]
    requires run[0] == Begin(1, records, true, f) && run[1] == Begin(2, records, true, f)
    ensures var p := BeginCheck(s.rows, records, true, f);
            Run(s, run[..2]).pending == map[1 := p, 2 := p]
  {
    hide BeginCheck;
    assert run[..0] == [];
    Step(s, run, 0);
    Step(s, run, 1);
  }

  lemma FinishLeaves(s: State, e: Event)
    requires e.Finish?
    ensures Next(s, e).pending == s.pending - {e.check}
  {
  }

  /** With nothing stored, a check asks about every live record. */
  lemma FirstCheckAsks(records: seq<VaultRecord>, findings: Findings, id: Id, v: nat)
    requires Holds(records, id, v)
    ensures var p := BeginCheck([], records, true, findings); id in p.toCheck && id !in p.skipped
    ensures Stamped(records, id, v)
  {
    LiveRecordIsDecrypted(records, id, v);
    hide Decrypted, VersionOf, Chosen;
    ChosenMembers(Decrypted(records), Skippable(records, []));
    ChosenMembers(Decrypted(records), Unskippable(records, []));
  }

  lemma Step(s: State, run: seq<Event>, k: nat)
    requires k < |run|
    ensures Run(s, run[..k + 1]) == Next(Run(s, run[..k]), run[k])
  {
    assert run[..k + 1][..k] == run[..k];
  }
}
