/**
 The health report, its per-record projection stored in the database, and the report rebuilt from
 the stored rows.
 */
module HealthReport {
  import opened Prelude

  type Id = nat

  datatype Report = Report(
    weakPasswords: seq<Id>, duplicatePasswords: seq<seq<Id>>,
    compromised: seq<Id>, expired: seq<Id>, totalChecked: nat)

  datatype StoredRecord = StoredRecord(id: Id, version: nat)

  datatype HealthState = HealthState(
    recordId: Id, recordVersion: nat, evaluatedAt: Option<int>,
    weakPassword: Option<bool>, duplicateGroupSize: Option<nat>,
    compromised: Option<bool>, expired: Option<bool>)

  datatype Issue = Compromised | Weak | Duplicate(groupSize: nat) | Expired

  // ---------------------------------------------------------------------------
  // Queries on a report
  // ---------------------------------------------------------------------------

  ghost predicate IsDuplicate(report: Report, id: Id) {
    exists g :: g in report.duplicatePasswords && id in g
  }

  ghost predicate HasIssue(report: Report, id: Id) {
    id in report.weakPasswords || IsDuplicate(report, id) || id in report.compromised || id in report.expired
  }

  function Members(ids: seq<Id>): set<Id> { set id | id in ids }

  function Flattened(groups: seq<seq<Id>>): set<Id> {
    if groups == [] then {}
    else Flattened(groups[..|groups| - 1]) + Members(groups[|groups| - 1])
  }

  lemma {:induction false} FlattenedMembers(groups: seq<seq<Id>>)
    ensures forall id :: id in Flattened(groups) <==> exists g :: g in groups && id in g
  {
    if groups != [] {
      var n := |groups| - 1;
      FlattenedMembers(groups[..n]);
      assert forall g :: g in groups <==> g in groups[..n] || g == groups[n];
    }
  }

  /** The records with at least one issue. */
  function IssueIds(report: Report): set<Id> {
    Members(report.weakPasswords) + Flattened(report.duplicatePasswords)
    + Members(report.compromised) + Members(report.expired)
  }

  lemma IssueIdsHaveIssues(report: Report)
    ensures forall id :: id in IssueIds(report) <==> HasIssue(report, id)
  {
    FlattenedMembers(report.duplicatePasswords);
  }

  /** Insert a list of ids into a hash set, one by one. */
  method InsertAll(seen: set<Id>, ids: seq<Id>) returns (all: set<Id>)
    ensures all == seen + Members(ids)
  {
    all := seen;
    for i := 0 to |ids|
      invariant all == seen + Members(ids[..i])
    {
      assert ids[..i + 1] == ids[..i] + [ids[i]];
      all := all + {ids[i]};
    }
    assert ids[..|ids|] == ids;
  }

  /** `issue_count`: insert every id of every category into a hash set and take its size. */
  method IssueCount(report: Report) returns (count: nat)
    ensures count == |IssueIds(report)|
  {
    var seen := InsertAll({}, report.weakPasswords);
    for i := 0 to |report.duplicatePasswords|
      invariant seen == Members(report.weakPasswords) + Flattened(report.duplicatePasswords[..i])
    {
      assert report.duplicatePasswords[..i + 1][..i] == report.duplicatePasswords[..i];
      seen := InsertAll(seen, report.duplicatePasswords[i]);
    }
    assert report.duplicatePasswords[..|report.duplicatePasswords|] == report.duplicatePasswords;
    seen := InsertAll(seen, report.compromised);
    seen := InsertAll(seen, report.expired);
    count := |seen|;
  }

  /** The first group, in order, that contains the id. */
  function FirstGroup(groups: seq<seq<Id>>, id: Id): Option<seq<Id>> {
    if groups == [] then None
    else if id in groups[0] then Some(groups[0])
    else FirstGroup(groups[1..], id)
  }

  lemma {:induction false} FirstGroupFinds(groups: seq<seq<Id>>, id: Id)
    ensures FirstGroup(groups, id).Some? <==> exists g :: g in groups && id in g
    ensures FirstGroup(groups, id).Some? ==>
      FirstGroup(groups, id).value in groups && id in FirstGroup(groups, id).value
  {
    if groups != [] && id !in groups[0] {
      FirstGroupFinds(groups[1..], id);
      assert forall g :: g in groups <==> g == groups[0] || g in groups[1..];
    }
  }

  function GetIssueFor(report: Report, id: Id): Option<Issue> {
    if id in report.compromised then Some(Compromised)
    else if id in report.weakPasswords then Some(Weak)
    else match FirstGroup(report.duplicatePasswords, id)
      case Some(g) => Some(Duplicate(|g|))
      case None => if id in report.expired then Some(Expired) else None
  }

  /** The kind of issue shown for a record, by what the report lists it under: the gravest category counts. */
  lemma IssueByMembership(report: Report, id: Id)
    ensures var issue := GetIssueFor(report, id);
            && (issue == Some(Compromised) <==> id in report.compromised)
            && (issue == Some(Weak) <==> id in report.weakPasswords && id !in report.compromised)
            && (issue.Some? && issue.value.Duplicate? <==>
                  IsDuplicate(report, id) && id !in report.weakPasswords && id !in report.compromised)
            && (issue == Some(Expired) <==>
                  && id in report.expired && !IsDuplicate(report, id)
                  && id !in report.weakPasswords && id !in report.compromised)
            && (issue == None <==> !HasIssue(report, id))
    ensures var issue := GetIssueFor(report, id);
            issue.Some? && issue.value.Duplicate? ==>
              exists k :: IsFirstGroup(report.duplicatePasswords, id, k)
                          && issue.value.groupSize == |report.duplicatePasswords[k]|
  {
    FirstGroupFinds(report.duplicatePasswords, id);
    FirstGroupIsFirst(report.duplicatePasswords, id);
  }

  predicate IsFirstGroup(groups: seq<seq<Id>>, id: Id, k: int) {
    0 <= k < |groups| && id in groups[k] && forall j :: 0 <= j < k ==> id !in groups[j]
  }

  lemma {:induction false} FirstGroupIsFirst(groups: seq<seq<Id>>, id: Id)
    ensures FirstGroup(groups, id).Some? ==>
              exists k :: IsFirstGroup(groups, id, k) && FirstGroup(groups, id).value == groups[k]
  {
    if groups != [] {
      if id in groups[0] {
        assert IsFirstGroup(groups, id, 0);
      } else {
        FirstGroupIsFirst(groups[1..], id);
        if FirstGroup(groups, id).Some? {
          var k :| IsFirstGroup(groups[1..], id, k) && FirstGroup(groups[1..], id).value == groups[1..][k];
          assert forall j :: 0 < j < |groups| ==> groups[j] == groups[1..][j - 1];
          assert IsFirstGroup(groups, id, k + 1);
        }
      }
    }
  }

  predicate SameKind(a: Option<Issue>, b: Option<Issue>) {
    match (a, b)
    case (Some(Duplicate(_)), Some(Duplicate(_))) => true
    case _ => a == b
  }

  /** The flags `populate_health_fields` sets on a record shown in the list. */
  datatype RecordFlags = RecordFlags(hasWeakPassword: bool, isCompromised: bool, duplicateGroupSize: Option<nat>,
    isExpired: bool)

  function FlagsFor(report: Report, id: Id): RecordFlags {
    RecordFlags(id in report.weakPasswords, id in report.compromised,
                match FirstGroup(report.duplicatePasswords, id)
                case Some(g) => Some(|g|)
                case None => None,
                id in report.expired)
  }

  class TuiRecord {
    const id: Id
    var flags: RecordFlags

    constructor (id: Id, flags: RecordFlags)
      ensures this.id == id && this.flags == flags
    {
      this.id, this.flags := id, flags;
    }
  }

  /** `populate_health_fields`: without a report the records keep the flags they had. */
  method PopulateHealthFields(records: seq<TuiRecord>, report: Option<Report>)
    modifies records
    ensures forall k :: 0 <= k < |records| ==>
              records[k].flags == if report.Some? then FlagsFor(report.value, records[k].id) else old(records[k].flags)
  {
    if report.Some? {
      for i := 0 to |records|
        invariant forall k :: 0 <= k < i ==> records[k].flags == FlagsFor(report.value, records[k].id)
      {
        records[i].flags := FlagsFor(report.value, records[i].id);
      }
    }
  }

  // ---------------------------------------------------------------------------
  // Projection to rows and back
  // ---------------------------------------------------------------------------

  /** Groups share no record and have at least two entries. */
  predicate ProperGroups(groups: seq<seq<Id>>) {
    && (forall i :: 0 <= i < |groups| ==> |groups[i]| >= 2)
    && (forall i, j :: 0 <= i < j < |groups| ==> forall id :: id in groups[i] ==> id !in groups[j])
  }

  predicate DistinctIds(records: seq<StoredRecord>) {
    forall i, j :: 0 <= i < j < |records| ==> records[i].id != records[j].id
  }

  ghost predicate Covers(records: seq<StoredRecord>, report: Report) {
    forall id :: HasIssue(report, id) ==> exists k :: 0 <= k < |records| && records[k].id == id
  }

  /** The size of the last group listing the id: inserting into a map lets later groups win. */
  function LastGroupSize(groups: seq<seq<Id>>, id: Id): Option<nat> {
    if groups == [] then None
    else
      var n := |groups| - 1;
      if id in groups[n] then Some(|groups[n]|) else LastGroupSize(groups[..n], id)
  }

  function Row(record: StoredRecord, report: Report, evaluatedAt: int): HealthState {
    HealthState(record.id, record.version, Some(evaluatedAt),
                Some(record.id in report.weakPasswords),
                LastGroupSize(report.duplicatePasswords, record.id),
                Some(record.id in report.compromised),
                Some(record.id in report.expired))
  }

  function Rows(records: seq<StoredRecord>, report: Report, evaluatedAt: int): (rows: seq<HealthState>)
    ensures |rows| == |records|
  {
    seq(|records|, k requires 0 <= k < |records| => Row(records[k], report, evaluatedAt))
  }

  /** `project_health_report_to_states`: build lookup tables from the report, then one row per record. */
  method ProjectHealthReport(records: seq<StoredRecord>, report: Report, evaluatedAt: int)
    returns (states: seq<HealthState>)
    ensures states == Rows(records, report, evaluatedAt)
  {
    var weakSet := set id | id in report.weakPasswords;
    var compromisedSet := set id | id in report.compromised;
    var expiredSet := set id | id in report.expired;
    var dupSizes: map<Id, nat> := map[];
    for i := 0 to |report.duplicatePasswords|
      invariant forall id :: Lookup(dupSizes, id) == LastGroupSize(report.duplicatePasswords[..i], id)
    {
      var group := report.duplicatePasswords[i];
      ghost var before := dupSizes;
      for j := 0 to |group|
        invariant forall id :: Lookup(dupSizes, id) == if id in group[..j] then Some(|group|) else Lookup(before, id)
      {
        assert group[..j + 1] == group[..j] + [group[j]];
        dupSizes := dupSizes[group[j] := |group|];
      }
      assert group[..|group|] == group;
      assert report.duplicatePasswords[..i + 1][..i] == report.duplicatePasswords[..i];
    }
    assert report.duplicatePasswords[..|report.duplicatePasswords|] == report.duplicatePasswords;
    states := [];
    for k := 0 to |records|
      invariant states == Rows(records, report, evaluatedAt)[..k]
    {
      var id := records[k].id;
      assert Lookup(dupSizes, id) == LastGroupSize(report.duplicatePasswords, id);
      states := states + [HealthState(id, records[k].version, Some(evaluatedAt), Some(id in weakSet),
                                      Lookup(dupSizes, id), Some(id in compromisedSet), Some(id in expiredSet))];
    }
  }

  function Lookup(m: map<Id, nat>, id: Id): Option<nat> {
    if id in m then Some(m[id]) else None
  }

  /** The ids of the rows satisfying a test, in row order. */
  function Where(rows: seq<HealthState>, test: HealthState -> bool): seq<Id> {
    if rows == [] then []
    else
      var n := |rows| - 1;
      Where(rows[..n], test) + if test(rows[n]) then [rows[n].recordId] else []
  }

  lemma {:induction false} WhereMembers(rows: seq<HealthState>, test: HealthState -> bool)
    ensures forall id :: id in Where(rows, test) <==>
      exists k :: 0 <= k < |rows| && test(rows[k]) && rows[k].recordId == id
  {
    if rows != [] {
      var n := |rows| - 1;
      WhereMembers(rows[..n], test);
      forall id
        ensures id in Where(rows, test) <==> exists k :: 0 <= k < |rows| && test(rows[k]) && rows[k].recordId == id
      {
        if k :| 0 <= k < |rows| && test(rows[k]) && rows[k].recordId == id {
          if k < n { assert rows[..n][k] == rows[k]; }
        }
      }
    }
  }

  const IsWeakRow: HealthState -> bool := (s: HealthState) => s.weakPassword == Some(true)
  const IsDuplicateRow: HealthState -> bool :=
    (s: HealthState) => s.duplicateGroupSize.Some? && s.duplicateGroupSize.value >= 2
  const IsCompromisedRow: HealthState -> bool := (s: HealthState) => s.compromised == Some(true)
  const IsExpiredRow: HealthState -> bool := (s: HealthState) => s.expired == Some(true)

  function Loaded(rows: seq<HealthState>): Option<Report> {
    if rows == [] then None
    else
      var duplicates := Where(rows, IsDuplicateRow);
      Some(Report(Where(rows, IsWeakRow), if duplicates == [] then [] else [duplicates],
                  Where(rows, IsCompromisedRow), Where(rows, IsExpiredRow), |rows|))
  }

  /** The filters of `load_cached_health_report` over the stored rows. */
  method LoadCachedHealthReport(rows: seq<HealthState>) returns (report: Option<Report>)
    ensures report == Loaded(rows)
  {
    if rows == [] {
      return None;
    }
    var weak, duplicates, compromised, expired := [], [], [], [];
    for i := 0 to |rows|
      invariant weak == Where(rows[..i], IsWeakRow) && duplicates == Where(rows[..i], IsDuplicateRow)
      invariant compromised == Where(rows[..i], IsCompromisedRow) && expired == Where(rows[..i], IsExpiredRow)
    {
      assert rows[..i + 1][..i] == rows[..i];
      if rows[i].weakPassword == Some(true) { weak := weak + [rows[i].recordId]; }
      if rows[i].duplicateGroupSize.Some? && rows[i].duplicateGroupSize.value >= 2 {
        duplicates := duplicates + [rows[i].recordId];
      }
      if rows[i].compromised == Some(true) { compromised := compromised + [rows[i].recordId]; }
      if rows[i].expired == Some(true) { expired := expired + [rows[i].recordId]; }
    }
    assert rows[..|rows|] == rows;
    report := Some(Report(weak, if duplicates == [] then [] else [duplicates], compromised, expired, |rows|));
  }

  lemma {:induction false} GroupSizesAgree(groups: seq<seq<Id>>, id: Id)
    requires ProperGroups(groups)
    ensures LastGroupSize(groups, id) == (match FirstGroup(groups, id) case Some(g) => Some(|g|) case None => None)
    ensures LastGroupSize(groups, id).Some? ==> LastGroupSize(groups, id).value >= 2
  {
    if groups != [] {
      var n := |groups| - 1;
      GroupSizesAgree(groups[..n], id);
      FirstGroupSplit(groups, id);
      FirstGroupFinds(groups[..n], id);
    }
  }

  lemma {:induction false} FirstGroupSplit(groups: seq<seq<Id>>, id: Id)
    requires groups != []
    ensures var n := |groups| - 1;
            FirstGroup(groups, id) == if FirstGroup(groups[..n], id).Some? then FirstGroup(groups[..n], id)
                                      else if id in groups[n] then Some(groups[n]) else None
  {
    var n := |groups| - 1;
    if n > 0 {
      assert groups[..n][1..] == groups[1..][..n - 1];
      FirstGroupSplit(groups[1..], id);
    }
  }

  /** The projected row of a record agrees with the flags the list view computes from the report. */
  lemma RowAgreesWithFlags(record: StoredRecord, report: Report, evaluatedAt: int)
    requires ProperGroups(report.duplicatePasswords)
    ensures var row, flags := Row(record, report, evaluatedAt), FlagsFor(report, record.id);
            && row.weakPassword == Some(flags.hasWeakPassword) && row.compromised == Some(flags.isCompromised)
            && row.expired == Some(flags.isExpired) && row.duplicateGroupSize == flags.duplicateGroupSize
  {
    GroupSizesAgree(report.duplicatePasswords, record.id);
  }

  /** The rows come back from the database in some order of their own. */
  predicate SameRows(a: seq<HealthState>, b: seq<HealthState>) {
    multiset(a) == multiset(b)
  }

  /**
   Projecting a report and loading it back keeps every membership and so the issue kind of every
   record and whether there are issues at all, for any order in which the rows are read.
   */
  lemma ReloadKeepsMemberships(records: seq<StoredRecord>, report: Report, evaluatedAt: int, rows: seq<HealthState>)
    requires records != [] && Covers(records, report) && ProperGroups(report.duplicatePasswords)
    requires SameRows(rows, Rows(records, report, evaluatedAt))
    ensures Loaded(rows).Some?
    ensures var loaded := Loaded(rows).value;
            && loaded.totalChecked == |records|
            && forall id ::
                && (id in loaded.weakPasswords <==> id in report.weakPasswords)
                && (id in loaded.compromised <==> id in report.compromised)
                && (id in loaded.expired <==> id in report.expired)
                && (IsDuplicate(loaded, id) <==> IsDuplicate(report, id))
                && (HasIssue(loaded, id) <==> HasIssue(report, id))
                && SameKind(GetIssueFor(loaded, id), GetIssueFor(report, id))
  {
    var projected := Rows(records, report, evaluatedAt);
    assert |multiset(rows)| == |rows| && |multiset(projected)| == |records|;
    var loaded := Loaded(rows).value;
    WhereMembers(rows, IsWeakRow);
    WhereMembers(rows, IsDuplicateRow);
    WhereMembers(rows, IsCompromisedRow);
    WhereMembers(rows, IsExpiredRow);
    forall id
      ensures id in loaded.weakPasswords <==> id in report.weakPasswords
      ensures id in loaded.compromised <==> id in report.compromised
      ensures id in loaded.expired <==> id in report.expired
      ensures IsDuplicate(loaded, id) <==> IsDuplicate(report, id)
      ensures SameKind(GetIssueFor(loaded, id), GetIssueFor(report, id))
    {
      RowsOfId(records, report, evaluatedAt, rows, id);
      GroupSizesAgree(report.duplicatePasswords, id);
      FirstGroupFinds(report.duplicatePasswords, id);
      FirstGroupFinds(loaded.duplicatePasswords, id);
      assert Where(rows, IsDuplicateRow) != [] ==> loaded.duplicatePasswords[0] in loaded.duplicatePasswords;
    }
  }

  /** An id listed in the report has a row, and every row of an id says what the report says of it. */
  lemma RowsOfId(records: seq<StoredRecord>, report: Report, evaluatedAt: int, rows: seq<HealthState>, id: Id)
    requires Covers(records, report) && SameRows(rows, Rows(records, report, evaluatedAt))
    ensures HasIssue(report, id) ==> exists k :: 0 <= k < |rows| && rows[k].recordId == id
    ensures forall k :: 0 <= k < |rows| && rows[k].recordId == id ==>
              && rows[k].weakPassword == Some(id in report.weakPasswords)
              && rows[k].compromised == Some(id in report.compromised)
              && rows[k].expired == Some(id in report.expired)
              && rows[k].duplicateGroupSize == LastGroupSize(report.duplicatePasswords, id)
  {
    var projected := Rows(records, report, evaluatedAt);
    if HasIssue(report, id) {
      var j :| 0 <= j < |records| && records[j].id == id;
      assert projected[j] in multiset(rows);
    }
    forall k | 0 <= k < |rows| && rows[k].recordId == id
      ensures rows[k] in projected
    {
      assert rows[k] in multiset(projected);
    }
  }

  /** The number of distinct records with issues, and whether there are any, survive the round trip. */
  lemma IssueCountSurvivesReload(records: seq<StoredRecord>, report: Report, evaluatedAt: int, rows: seq<HealthState>)
    requires records != [] && Covers(records, report) && ProperGroups(report.duplicatePasswords)
    requires SameRows(rows, Rows(records, report, evaluatedAt))
    ensures Loaded(rows).Some? && |IssueIds(Loaded(rows).value)| == |IssueIds(report)|
    ensures |IssueIds(report)| > 0 <==> exists id :: HasIssue(report, id)
  {
    ReloadKeepsMemberships(records, report, evaluatedAt, rows);
    IssueIdsHaveIssues(report);
    IssueIdsHaveIssues(Loaded(rows).value);
    assert IssueIds(Loaded(rows).value) == IssueIds(report);
    if |IssueIds(report)| > 0 {
      var id :| id in IssueIds(report);
      assert HasIssue(report, id);
    }
  }

  /**
   What does not survive is the size of the group. All duplicates come back as one group, so a
   duplicate issue is reported with its old size exactly when its group held all the duplicates.
   */
  lemma GroupSizeSurvivesIff(records: seq<StoredRecord>, report: Report, evaluatedAt: int, rows: seq<HealthState>,
                             id: Id)
    requires records != [] && Covers(records, report) && ProperGroups(report.duplicatePasswords) && DistinctIds(records)
    requires SameRows(rows, Rows(records, report, evaluatedAt))
    requires GetIssueFor(report, id).Some? && GetIssueFor(report, id).value.Duplicate?
    requires forall i :: 0 <= i < |report.duplicatePasswords| ==> NoRepeats(report.duplicatePasswords[i])
    ensures GetIssueFor(Loaded(rows).value, id) == GetIssueFor(report, id) <==> |report.duplicatePasswords| == 1
  {
    ReloadKeepsMemberships(records, report, evaluatedAt, rows);
    var loaded := Loaded(rows).value;
    var groups := report.duplicatePasswords;
    FirstGroupFinds(groups, id);
    FirstGroupFinds(loaded.duplicatePasswords, id);
    var own := FirstGroup(groups, id).value;
    var merged := Where(rows, IsDuplicateRow);
    RowsAreDistinct(records, report, evaluatedAt, rows);
    WhereNoRepeats(rows, IsDuplicateRow);
    var ownSet, mergedSet := set x | x in own, set x | x in merged;
    SizeOfSet(own, ownSet);
    SizeOfSet(merged, mergedSet);
    assert merged != [] ==> loaded.duplicatePasswords[0] == merged;
    assert forall x :: x in merged <==> IsDuplicate(loaded, x);
    assert ownSet <= mergedSet;
    if |groups| == 1 {
      assert groups[0] == own;
      assert mergedSet == ownSet;
    } else {
      var i :| 0 <= i < |groups| && groups[i] == own;
      var j := if i == 0 then 1 else 0;
      var other := groups[j][0];
      assert other in groups[j] && other !in own;
      assert IsDuplicate(report, other) && other in mergedSet && other !in ownSet;
      assert ownSet < mergedSet;
      SmallerSubset(ownSet, mergedSet);
    }
  }

  lemma SmallerSubset(a: set<Id>, b: set<Id>)
    requires a < b
    ensures |a| < |b|
  {
    var x :| x in b && x !in a;
    assert a <= b - {x};
    SubsetSize(a, b - {x});
  }

  lemma {:induction false} SubsetSize(a: set<Id>, b: set<Id>)
    requires a <= b
    ensures |a| <= |b|
    decreases a
  {
    if a != {} {
      var x :| x in a;
      SubsetSize(a - {x}, b - {x});
    }
  }

  predicate NoRepeats(s: seq<Id>) {
    forall i, j :: 0 <= i < j < |s| ==> s[i] != s[j]
  }

  lemma {:induction false} SizeOfSet(s: seq<Id>, ids: set<Id>)
    requires NoRepeats(s) && ids == set x | x in s
    ensures |ids| == |s|
  {
    if s != [] {
      var n := |s| - 1;
      assert ids - {s[n]} == set x | x in s[..n];
      SizeOfSet(s[..n], ids - {s[n]});
    }
  }

  predicate RowIdsDiffer(rows: seq<HealthState>) {
    forall i, j :: 0 <= i < j < |rows| ==> rows[i].recordId != rows[j].recordId
  }

  lemma {:induction false} WhereNoRepeats(rows: seq<HealthState>, test: HealthState -> bool)
    requires RowIdsDiffer(rows)
    ensures NoRepeats(Where(rows, test))
  {
    if rows != [] {
      var n := |rows| - 1;
      WhereNoRepeats(rows[..n], test);
      WhereMembers(rows[..n], test);
      assert forall k :: 0 <= k < n ==> rows[..n][k].recordId != rows[n].recordId;
      assert rows[n].recordId !in Where(rows[..n], test);
    }
  }

  lemma RowsAreDistinct(records: seq<StoredRecord>, report: Report, evaluatedAt: int, rows: seq<HealthState>)
    requires DistinctIds(records) && SameRows(rows, Rows(records, report, evaluatedAt))
    ensures RowIdsDiffer(rows)
  {
    var projected := Rows(records, report, evaluatedAt);
    forall i, j | 0 <= i < j < |rows| && rows[i].recordId == rows[j].recordId ensures false {
      assert rows[i] in multiset(projected) && rows[j] in multiset(projected);
      var a :| 0 <= a < |projected| && projected[a] == rows[i];
      var b :| 0 <= b < |projected| && projected[b] == rows[j];
      assert a == b;
      OccursTwice(rows, i, j);
      OccursOnce(projected, a);
    }
  }

  lemma OccursTwice<T>(s: seq<T>, i: nat, j: nat)
    requires i < j < |s| && s[i] == s[j]
    ensures multiset(s)[s[i]] >= 2
  {
    assert s == s[..j] + s[j..];
    assert s[i] in multiset(s[..j]) by { assert s[..j][i] == s[i]; }
    assert s[j] in multiset(s[j..]) by { assert s[j..][0] == s[j]; }
  }

  lemma OccursOnce<T>(s: seq<T>, a: nat)
    requires a < |s| && forall i, j :: 0 <= i < j < |s| ==> s[i] != s[j]
    ensures multiset(s)[s[a]] == 1
  {
    assert s == s[..a] + ([s[a]] + s[a + 1..]);
    assert s[a] !in s[..a] && s[a] !in s[a + 1..];
  }
}
