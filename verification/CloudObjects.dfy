/**
 The cloud object store: paths, temp-then-rename uploads from any number of devices interleaved step
 by step, deletes, and the record listing. Contents are opaque bodies; a write that fails may leave
 nothing or anything at its temp path. Renaming and deleting one object are atomic; `ok` says
 whether they took effect, whatever the caller is told.
 */
module CloudObjects {
  import opened Prelude

  type Path = string
  type Body = nat

  const RECORDS_PREFIX := "records/"
  const JSON := ".json"
  const METADATA_FILENAME := ".metadata.json"

  predicate StartsWith(s: string, prefix: string) {
    |prefix| <= |s| && s[..|prefix|] == prefix
  }

  predicate EndsWith(s: string, suffix: string) {
    |suffix| <= |s| && s[|s| - |suffix|..] == suffix
  }

  function TrimSlashes(s: string): string {
    if s != "" && s[|s| - 1] == '/' then TrimSlashes(s[..|s| - 1]) else s
  }

  function ExtractRecordId(path: Path): Option<string> {
    var p := TrimSlashes(path);
    if !StartsWith(p, RECORDS_PREFIX) then None
    else
      var filename := p[|RECORDS_PREFIX|..];
      if !EndsWith(filename, JSON) then None
      else
        var id := filename[..|filename| - |JSON|];
        if id == "" then None else Some(id)
  }

  function RecordPath(id: string): Path { RECORDS_PREFIX + id + JSON }

  /** Extraction inverts the record path format, up to trailing slashes and for non-empty ids. */
  lemma ExtractInvertsFormat(path: Path, id: string)
    ensures ExtractRecordId(path) == Some(id) <==> id != "" && TrimSlashes(path) == RecordPath(id)
  {
    hide TrimSlashes;
    var p := TrimSlashes(path);
    if StartsWith(p, RECORDS_PREFIX) && EndsWith(p[|RECORDS_PREFIX|..], JSON) {
      SandwichIff(p, id);
    } else {
      SandwichMiddle(id);
    }
  }

  lemma SandwichIff(p: string, id: string)
    requires StartsWith(p, RECORDS_PREFIX) && EndsWith(p[|RECORDS_PREFIX|..], JSON)
    ensures p[|RECORDS_PREFIX|..][..|p| - |RECORDS_PREFIX| - |JSON|] == id <==> p == RecordPath(id)
  {
    var filename := p[|RECORDS_PREFIX|..];
    assert p == RECORDS_PREFIX + filename;
    assert filename == filename[..|filename| - |JSON|] + JSON;
    SandwichMiddle(id);
  }

  lemma SandwichMiddle(id: string)
    ensures var p := RecordPath(id);
            && StartsWith(p, RECORDS_PREFIX) && EndsWith(p[|RECORDS_PREFIX|..], JSON)
            && p[|RECORDS_PREFIX|..][..|p| - |RECORDS_PREFIX| - |JSON|] == id
  {
    var p := RecordPath(id);
    assert p[|RECORDS_PREFIX|..] == id + JSON;
  }

  // ---------------------------------------------------------------------------
  // Interleaved uploads and deletes
  // ---------------------------------------------------------------------------

  datatype Target = Record(id: string) | Metadata

  /** One upload call: its target, its fresh temp name and the object it carries. */
  datatype Upload = Upload(target: Target, uuid: string, body: Body)

  predicate IsUuid(s: string) {
    |s| == 36 && forall c | c in s :: '0' <= c <= '9' || 'a' <= c <= 'f' || c == '-'
  }

  function FinalPath(t: Target): Path {
    match t
    case Record(id) => RecordPath(id)
    case Metadata => METADATA_FILENAME
  }

  function TempPath(u: Upload): Path {
    FinalPath(u.target) + ".tmp." + u.uuid
  }

  datatype Object = Whole(body: Body) | Torn

  datatype Stage = Pending | Written | Finished

  /** `placed` are the paths under which an object was ever created, or at least its directories. */
  datatype State = State(store: map<Path, Object>, placed: set<Path>, stage: map<nat, Stage>)

  /** How writing the temp object ends, and what a failed write leaves: an object, its directories or nothing. */
  datatype TempWrite = Complete | Failed(left: Option<Object>, directories: bool)

  datatype Event =
    | WriteTemp(upload: nat, outcome: TempWrite)
    | Rename(upload: nat, ok: bool)
    | Erase(target: Target, ok: bool)

  function StageOf(s: State, u: nat): Stage {
    if u in s.stage then s.stage[u] else Pending
  }

  /** A rename of this upload now would put its object in place. */
  predicate Lands(uploads: seq<Upload>, s: State, u: nat) {
    u < |uploads| && StageOf(s, u) == Written
  }

  function Placed(s: State, p: Path, o: Object, u: nat, stage: Stage): State {
    State(s.store[p := o], s.placed + {p}, s.stage[u := stage])
  }

  /** Whether the event changes what readers see, and how, is decided by its upload's stage. */
  function Next(uploads: seq<Upload>, s: State, e: Event): State {
    match e
    case WriteTemp(u, outcome) =>
      if u >= |uploads| || StageOf(s, u) != Pending then s
      else
        var temp := TempPath(uploads[u]);
        (match outcome
         case Complete => Placed(s, temp, Whole(uploads[u].body), u, Written)
         case Failed(Some(left), _) => Placed(s, temp, left, u, Finished)
         case Failed(None, directories) =>
           State(s.store, if directories then s.placed + {temp} else s.placed, s.stage[u := Finished]))
    case Rename(u, ok) =>
      if u >= |uploads| || StageOf(s, u) != Written then s
      else if ok && TempPath(uploads[u]) in s.store then
        var temp := TempPath(uploads[u]);
        Placed(s.(store := s.store - {temp}), FinalPath(uploads[u].target), s.store[temp], u, Finished)
      else s.(stage := s.stage[u := Finished])
    case Erase(t, ok) => if ok then s.(store := s.store - {FinalPath(t)}) else s
  }

  function Run(uploads: seq<Upload>, run: seq<Event>): State {
    if run == [] then State(map[], {}, map[])
    else Next(uploads, Run(uploads, run[..|run| - 1]), run[|run| - 1])
  }

  /** The specification: one atomic register per target, set by a rename and cleared by a delete. */
  function Registers(uploads: seq<Upload>, run: seq<Event>): map<Target, Body> {
    if run == [] then map[]
    else
      var front := run[..|run| - 1];
      var before := Registers(uploads, front);
      match run[|run| - 1]
      case WriteTemp(_, _) => before
      case Rename(u, ok) =>
        if ok && Lands(uploads, Run(uploads, front), u) then before[uploads[u].target := uploads[u].body] else before
      case Erase(t, ok) => if ok then before - {t} else before
  }

  ghost predicate FreshNames(uploads: seq<Upload>) {
    && (forall u :: 0 <= u < |uploads| ==> IsUuid(uploads[u].uuid))
    && (forall u, v :: 0 <= u < v < |uploads| ==> uploads[u].uuid != uploads[v].uuid)
  }

  lemma FinalPathsDiffer(a: Target, b: Target)
    requires a != b
    ensures FinalPath(a) != FinalPath(b)
  {
    if a.Record? && b.Record? {
      assert FinalPath(a)[8..|FinalPath(a)| - 5] == a.id;
      assert FinalPath(b)[8..|FinalPath(b)| - 5] == b.id;
    } else {
      assert FinalPath(Metadata)[0] == '.';
      assert FinalPath(if a.Record? then a else b)[0] == 'r';
    }
  }

  lemma TempIsNeverFinal(u: Upload, t: Target)
    requires IsUuid(u.uuid)
    ensures TempPath(u) != FinalPath(t)
    ensures TempPath(u)[|TempPath(u)| - 1] != '/'
  {
    assert TempPath(u)[|TempPath(u)| - 1] == u.uuid[35];
    assert u.uuid[35] in u.uuid;
    assert FinalPath(t)[|FinalPath(t)| - 1] == 'n';
  }

  lemma TempPathsDiffer(u: Upload, v: Upload)
    requires |u.uuid| == |v.uuid| == 36 && TempPath(u) == TempPath(v)
    ensures u.uuid == v.uuid
  {
    assert TempPath(u)[|TempPath(u)| - 36..] == u.uuid;
    assert TempPath(v)[|TempPath(v)| - 36..] == v.uuid;
  }

  /** No temp object is ever reported as a record. */
  lemma TempIsNeverListed(u: Upload)
    requires IsUuid(u.uuid)
    ensures ExtractRecordId(TempPath(u)) == None
  {
    TempIsNeverFinal(u, Metadata);
    if ExtractRecordId(TempPath(u)).Some? {
      var id := ExtractRecordId(TempPath(u)).value;
      ExtractInvertsFormat(TempPath(u), id);
      TempIsNeverFinal(u, Record(id));
    }
  }

  /** Readers see the registers; behind them only temp objects exist, whole once their write succeeded. */
  ghost predicate Refines(uploads: seq<Upload>, s: State, registers: map<Target, Body>) {
    && (forall t :: t in registers <==> FinalPath(t) in s.store)
    && (forall t :: t in registers ==> s.store[FinalPath(t)] == Whole(registers[t]))
    && (forall u: nat :: Lands(uploads, s, u) ==>
          TempPath(uploads[u]) in s.store && s.store[TempPath(uploads[u])] == Whole(uploads[u].body))
    && (forall p :: p in s.store ==> IsFinal(p) || IsTemp(uploads, p))
  }

  ghost predicate IsFinal(p: Path) { exists t :: p == FinalPath(t) }

  ghost predicate IsTemp(uploads: seq<Upload>, p: Path) { exists u: nat :: u < |uploads| && p == TempPath(uploads[u]) }

  /**
   Under any interleaving of any number of uploads and deletes, complete or failed at any step, every
   target's object is absent or whole, and is the one its register holds: the body of the latest
   completed upload not deleted since.
   */
  lemma {:induction false} StoreRefinesRegisters(uploads: seq<Upload>, run: seq<Event>)
    requires FreshNames(uploads)
    ensures Refines(uploads, Run(uploads, run), Registers(uploads, run))
  {
    if run != [] {
      var front, e := run[..|run| - 1], run[|run| - 1];
      StoreRefinesRegisters(uploads, front);
      var s, before := Run(uploads, front), Registers(uploads, front);
      match e {
        case WriteTemp(u, outcome) => WriteKeepsRefinement(uploads, s, before, u, outcome);
        case Rename(u, ok) => RenameKeepsRefinement(uploads, s, before, u, ok);
        case Erase(t, ok) => EraseKeepsRefinement(uploads, s, before, t, ok);
      }
    }
  }

  lemma WriteKeepsRefinement(uploads: seq<Upload>, s: State, registers: map<Target, Body>, u: nat, outcome: TempWrite)
    requires FreshNames(uploads) && Refines(uploads, s, registers)
    ensures Refines(uploads, Next(uploads, s, WriteTemp(u, outcome)), registers)
  {
    hide TempPath, FinalPath, IsUuid;
    if u < |uploads| {
      forall target ensures TempPath(uploads[u]) != FinalPath(target) { TempIsNeverFinal(uploads[u], target); }
      forall v: nat | v < |uploads| && v != u
        ensures TempPath(uploads[v]) != TempPath(uploads[u])
      {
        OtherTemp(uploads, u, v);
      }
      assert IsTemp(uploads, TempPath(uploads[u]));
    }
  }

  lemma OtherTemp(uploads: seq<Upload>, u: nat, v: nat)
    requires FreshNames(uploads) && u < |uploads| && v < |uploads| && u != v
    ensures TempPath(uploads[u]) != TempPath(uploads[v])
  {
    if TempPath(uploads[u]) == TempPath(uploads[v]) { TempPathsDiffer(uploads[u], uploads[v]); }
  }

  lemma RenameKeepsRefinement(uploads: seq<Upload>, s: State, registers: map<Target, Body>, u: nat, ok: bool)
    requires FreshNames(uploads) && Refines(uploads, s, registers)
    ensures Refines(uploads, Next(uploads, s, Rename(u, ok)),
                    if ok && Lands(uploads, s, u) then registers[uploads[u].target := uploads[u].body] else registers)
  {
    hide TempPath, FinalPath, IsUuid, FreshNames, IsFinal, IsTemp;
    if ok && Lands(uploads, s, u) {
      RenameLands(uploads, s, registers, u);
    } else {
      var t := Next(uploads, s, Rename(u, ok));
      assert t.store == s.store;
      assert forall v: nat :: Lands(uploads, t, v) ==> Lands(uploads, s, v);
    }
  }

  lemma RenameLands(uploads: seq<Upload>, s: State, registers: map<Target, Body>, u: nat)
    requires FreshNames(uploads) && Refines(uploads, s, registers) && Lands(uploads, s, u)
    ensures Refines(uploads, Next(uploads, s, Rename(u, true)), registers[uploads[u].target := uploads[u].body])
  {
    hide TempPath, FinalPath, IsUuid;
    var up := uploads[u];
    forall t, v: nat | v < |uploads| ensures TempPath(uploads[v]) != FinalPath(t) { TempIsNeverFinal(uploads[v], t); }
    forall v: nat | v < |uploads| && v != u ensures TempPath(uploads[v]) != TempPath(up) { OtherTemp(uploads, u, v); }
    forall t | t != up.target ensures FinalPath(t) != FinalPath(up.target) {
      FinalPathsDiffer(t, up.target);
    }
    assert IsFinal(FinalPath(up.target));
  }

  lemma EraseKeepsRefinement(uploads: seq<Upload>, s: State, registers: map<Target, Body>, target: Target, ok: bool)
    requires FreshNames(uploads) && Refines(uploads, s, registers)
    ensures Refines(uploads, Next(uploads, s, Erase(target, ok)), if ok then registers - {target} else registers)
  {
    hide TempPath, FinalPath, IsUuid;
    forall u: nat | u < |uploads|
      ensures TempPath(uploads[u]) != FinalPath(target)
    {
      TempIsNeverFinal(uploads[u], target);
    }
    forall t | t != target ensures FinalPath(t) != FinalPath(target) {
      FinalPathsDiffer(t, target);
    }
  }

  // ---------------------------------------------------------------------------
  // Listing
  // ---------------------------------------------------------------------------

  function Directory(segment: string): Path { RECORDS_PREFIX + segment + "/" }

  /** An object directly below `records/`. */
  ghost predicate IsChild(store: map<Path, Object>, e: Path) {
    e in store && StartsWith(e, RECORDS_PREFIX) && e != RECORDS_PREFIX && '/' !in e[|RECORDS_PREFIX|..]
  }

  /**
   Two kinds of store: in one a directory is but the common prefix of the objects in it; in the other,
   such as a file system, it is made with the first object and stays when the last one is gone.
   */
  datatype Kind = Prefixes | Directories

  /** The paths whose directories a listing shows. */
  function Sources(kind: Kind, s: State): set<Path> {
    match kind
    case Prefixes => s.store.Keys
    case Directories => s.placed
  }

  /** A directory directly below `records/`: the first segment of some deeper path. */
  ghost predicate IsDirectory(sources: set<Path>, e: Path) {
    exists p, segment :: p in sources && segment != "" && '/' !in segment && e == Directory(segment) && StartsWith(p, e)
  }

  /** A one-level listing of `records/`: all that is directly below it and possibly itself, nothing twice. */
  ghost predicate IsListing(store: map<Path, Object>, sources: set<Path>, entries: seq<Path>) {
    && (forall e :: IsChild(store, e) || IsDirectory(sources, e) ==> e in entries)
    && (forall e :: e in entries ==> IsChild(store, e) || IsDirectory(sources, e) || e == RECORDS_PREFIX)
    && Distinct(entries)
  }

  predicate Distinct(s: seq<string>) {
    forall i, j :: 0 <= i < j < |s| ==> s[i] != s[j]
  }

  function Extracted(entries: seq<Path>): seq<string> {
    if entries == [] then []
    else
      var n := |entries| - 1;
      Extracted(entries[..n]) +
        match ExtractRecordId(entries[n])
        case Some(id) => [id]
        case None => []
  }

  method ListRecords(entries: seq<Path>) returns (recordIds: seq<string>)
    ensures recordIds == Extracted(entries)
  {
    recordIds := [];
    for i := 0 to |entries|
      invariant recordIds == Extracted(entries[..i])
    {
      assert entries[..i + 1][..i] == entries[..i];
      var id := ExtractRecordId(entries[i]);
      if id.Some? {
        recordIds := recordIds + [id.value];
      }
    }
    assert entries[..|entries|] == entries;
  }

  lemma {:induction false} ExtractedMembers(entries: seq<Path>)
    ensures forall id :: id in Extracted(entries) <==> exists e :: e in entries && ExtractRecordId(e) == Some(id)
  {
    if entries != [] {
      var n := |entries| - 1;
      var front := entries[..n];
      ExtractedMembers(front);
      assert entries == front + [entries[n]];
    }
  }

  lemma {:induction false} ExtractedDistinctIff(entries: seq<Path>)
    ensures Distinct(Extracted(entries)) <==>
            forall i, j :: 0 <= i < j < |entries| && ExtractRecordId(entries[i]).Some? ==>
              ExtractRecordId(entries[i]) != ExtractRecordId(entries[j])
  {
    hide ExtractRecordId;
    if entries != [] {
      var n := |entries| - 1;
      var front, last := entries[..n], ExtractRecordId(entries[n]);
      ExtractedDistinctIff(front);
      ExtractedMembers(front);
      var ids := Extracted(front);
      if last.Some? {
        assert Extracted(entries) == ids + [last.value];
        DistinctSnocIff(ids, last.value);
        assert last.value in ids <==> exists i :: 0 <= i < n && ExtractRecordId(entries[i]) == last by {
          assert forall i :: 0 <= i < n ==> front[i] == entries[i] && front[i] in front;
        }
      } else {
        assert Extracted(entries) == ids;
      }
    }
  }

  lemma DistinctSnocIff(s: seq<string>, x: string)
    ensures Distinct(s + [x]) <==> Distinct(s) && x !in s
  {
    var longer := s + [x];
    assert forall i :: 0 <= i < |s| ==> longer[i] == s[i];
    assert longer[|s|] == x;
  }

  /** What the listing makes of one of its entries: a record of that name, or a directory of that name. */
  lemma EntryReports(store: map<Path, Object>, sources: set<Path>, e: Path, id: string)
    requires IsChild(store, e) || IsDirectory(sources, e) || e == RECORDS_PREFIX
    ensures ExtractRecordId(e) == Some(id) <==>
            id != "" && '/' !in id && (e == RecordPath(id) || e == RecordPath(id) + "/")
  {
    ExtractInvertsFormat(e, id);
    RecordPathShape(id);
    if IsChild(store, e) {
      assert e[|e| - 1] == e[|RECORDS_PREFIX|..][|e| - 1 - |RECORDS_PREFIX|];
      assert TrimSlashes(e) == e;
    } else if IsDirectory(sources, e) {
      var p, segment :| p in sources && segment != "" && '/' !in segment && e == Directory(segment) && StartsWith(p, e);
      DirectoryTrims(segment);
      assert e == RecordPath(id) + "/" <==> RECORDS_PREFIX + segment == RecordPath(id) by {
        assert e[..|e| - 1] == RECORDS_PREFIX + segment;
        assert (RecordPath(id) + "/")[..|RecordPath(id)|] == RecordPath(id);
      }
      if RECORDS_PREFIX + segment == RecordPath(id) {
        assert (RECORDS_PREFIX + segment)[|RECORDS_PREFIX|..] == segment;
        assert segment == id + JSON;
      }
    } else {
      PrefixIsNoRecord();
    }
  }

  lemma RecordPathShape(id: string)
    ensures var p := RecordPath(id);
            && p[|p| - 1] == 'n' && StartsWith(p, RECORDS_PREFIX) && p[|RECORDS_PREFIX|..] == id + JSON
            && ('/' in p[|RECORDS_PREFIX|..] <==> '/' in id)
  {
    assert RecordPath(id)[|RECORDS_PREFIX|..] == id + JSON;
    assert '/' !in JSON;
  }

  lemma DirectoryTrims(segment: string)
    requires segment != "" && '/' !in segment
    ensures TrimSlashes(Directory(segment)) == RECORDS_PREFIX + segment
  {
    var e, p := Directory(segment), RECORDS_PREFIX + segment;
    assert e[..|e| - 1] == p;
    assert p[|p| - 1] == segment[|segment| - 1];
    assert TrimSlashes(p) == p;
  }

  lemma PrefixIsNoRecord()
    ensures ExtractRecordId(RECORDS_PREFIX) == None
  {
    assert RECORDS_PREFIX[..7] == "records" && TrimSlashes("records") == "records";
    assert TrimSlashes(RECORDS_PREFIX) == "records";
  }

  /** Some object lies in a directory that carries the name of this id's record. */
  ghost predicate Shadowed(sources: set<Path>, id: string) {
    exists p :: p in sources && StartsWith(p, RecordPath(id) + "/")
  }

  /**
   Which ids a listing reports, whatever is stored: those without a slash whose record exists or
   whose record's name is taken by a directory. An id with a slash is never reported.
   */
  lemma ListedIff(store: map<Path, Object>, sources: set<Path>, entries: seq<Path>, id: string)
    requires IsListing(store, sources, entries)
    ensures id in Extracted(entries) <==>
            id != "" && '/' !in id && (RecordPath(id) in store || Shadowed(sources, id))
  {
    ExtractedMembers(entries);
    RecordPathShape(id);
    var record, directory := RecordPath(id), RecordPath(id) + "/";
    forall e | e in entries
      ensures ExtractRecordId(e) == Some(id) <==> id != "" && '/' !in id && (e == record || e == directory)
    {
      EntryReports(store, sources, e, id);
    }
    if id != "" && '/' !in id {
      EntriesOfRecord(store, sources, entries, id);
    }
  }

  lemma EntriesOfRecord(store: map<Path, Object>, sources: set<Path>, entries: seq<Path>, id: string)
    requires IsListing(store, sources, entries) && id != "" && '/' !in id
    ensures RecordPath(id) in entries <==> RecordPath(id) in store
    ensures RecordPath(id) + "/" in entries <==> Shadowed(sources, id)
  {
    RecordPathShape(id);
    var record, directory := RecordPath(id), RecordPath(id) + "/";
    assert directory == Directory(id + JSON) && directory[..|directory|] == directory;
    DirectoryHasSlash(directory, id + JSON);
    assert '/' !in JSON && '/' !in id + JSON;
    hide RecordPath;
    assert record != RECORDS_PREFIX && directory != RECORDS_PREFIX by {
      assert |record| > |RECORDS_PREFIX|;
    }
    assert !IsDirectory(sources, record);
    assert IsChild(store, record) <==> record in store;
    assert IsDirectory(sources, directory) <==> Shadowed(sources, id);
  }

  /** The listing reports exactly the non-empty ids whose final object exists, each once. */
  ghost predicate Exact(registers: map<Target, Body>, entries: seq<Path>) {
    && (forall id :: id in Extracted(entries) <==> id != "" && Record(id) in registers)
    && Distinct(Extracted(entries))
  }

  /** A listing of a store of the given kind in the given state. */
  ghost predicate Lists(kind: Kind, s: State, entries: seq<Path>) {
    IsListing(s.store, Sources(kind, s), entries)
  }

  /**
   After any interleaving and for both kinds of store, a listing is exact if and only if no stored id
   contains a slash and no directory is named like a record. Where directories stay, any object ever
   placed in one counts, temp objects and deleted records included.
   */
  lemma ListingIsExactIff(kind: Kind, uploads: seq<Upload>, run: seq<Event>, entries: seq<Path>)
    requires FreshNames(uploads) && Lists(kind, Run(uploads, run), entries)
    ensures Exact(Registers(uploads, run), entries) <==>
            && (forall id :: Record(id) in Registers(uploads, run) ==> '/' !in id)
            && (forall id :: id != "" && '/' !in id ==> !Shadowed(Sources(kind, Run(uploads, run)), id))
  {
    StoreRefinesRegisters(uploads, run);
    var store, registers := Run(uploads, run).store, Registers(uploads, run);
    var sources := Sources(kind, Run(uploads, run));
    assert forall id :: Record(id) in registers <==> RecordPath(id) in store by {
      forall id ensures Record(id) in registers <==> RecordPath(id) in store {
        assert FinalPath(Record(id)) == RecordPath(id);
      }
    }
    forall id
      ensures id in Extracted(entries) <==> id != "" && '/' !in id && (Record(id) in registers || Shadowed(sources, id))
    {
      ListedIff(store, sources, entries, id);
    }
    hide Run, Registers, Refines, Extracted, Shadowed, RecordPath, IsListing, Sources;
    if exists id :: id != "" && '/' !in id && Shadowed(sources, id) {
      var id :| id != "" && '/' !in id && Shadowed(sources, id);
      if Record(id) in registers { ShadowedRecordIsListedTwice(store, sources, entries, id); }
    } else {
      UnshadowedListingIsDistinct(store, sources, entries);
    }
  }

  lemma ShadowedRecordIsListedTwice(store: map<Path, Object>, sources: set<Path>, entries: seq<Path>, id: string)
    requires IsListing(store, sources, entries) && id != "" && '/' !in id
    requires RecordPath(id) in store && Shadowed(sources, id)
    ensures !Distinct(Extracted(entries))
  {
    EntriesOfRecord(store, sources, entries, id);
    var record, directory := RecordPath(id), RecordPath(id) + "/";
    EntryReports(store, sources, record, id);
    EntryReports(store, sources, directory, id);
    ExtractedDistinctIff(entries);
    var i :| 0 <= i < |entries| && entries[i] == record;
    var j :| 0 <= j < |entries| && entries[j] == directory;
    hide Extracted, ExtractRecordId, RecordPath;
    assert i < j || j < i;
  }

  lemma UnshadowedListingIsDistinct(store: map<Path, Object>, sources: set<Path>, entries: seq<Path>)
    requires IsListing(store, sources, entries)
    requires forall id :: id != "" && '/' !in id ==> !Shadowed(sources, id)
    ensures Distinct(Extracted(entries))
  {
    ExtractedDistinctIff(entries);
    hide Extracted, ExtractRecordId, RecordPath, Shadowed;
    forall i, j | 0 <= i < j < |entries| && ExtractRecordId(entries[i]).Some?
      ensures ExtractRecordId(entries[i]) != ExtractRecordId(entries[j])
    {
      var id := ExtractRecordId(entries[i]).value;
      EntryReports(store, sources, entries[i], id);
      EntryReports(store, sources, entries[j], id);
      EntriesOfRecord(store, sources, entries, id);
      assert entries[i] in entries && entries[j] in entries;
    }
  }

  ghost predicate SlashFree(uploads: seq<Upload>) {
    forall u :: 0 <= u < |uploads| && uploads[u].target.Record? ==> '/' !in uploads[u].target.id
  }

  ghost predicate DirectlyPlaced(s: State) {
    && s.store.Keys <= s.placed
    && forall p :: p in s.placed && StartsWith(p, RECORDS_PREFIX) ==> '/' !in p[|RECORDS_PREFIX|..]
  }

  lemma RecordPathsAreDirect(uploads: seq<Upload>, u: nat)
    requires SlashFree(uploads) && FreshNames(uploads) && u < |uploads| && uploads[u].target.Record?
    ensures '/' !in FinalPath(uploads[u].target)[|RECORDS_PREFIX|..]
    ensures '/' !in TempPath(uploads[u])[|RECORDS_PREFIX|..]
  {
    var up := uploads[u];
    assert FinalPath(up.target)[|RECORDS_PREFIX|..] == up.target.id + JSON;
    assert TempPath(up)[|RECORDS_PREFIX|..] == up.target.id + JSON + ".tmp." + up.uuid;
    assert '/' !in JSON && '/' !in ".tmp." && '/' !in up.uuid;
  }

  lemma {:induction false} SlashFreeRunsPlaceDirectly(uploads: seq<Upload>, run: seq<Event>)
    requires SlashFree(uploads) && FreshNames(uploads)
    ensures DirectlyPlaced(Run(uploads, run))
  {
    if run != [] {
      var front, e := run[..|run| - 1], run[|run| - 1];
      SlashFreeRunsPlaceDirectly(uploads, front);
      if !e.Erase? && e.upload < |uploads| {
        var up := uploads[e.upload];
        if up.target.Record? {
          RecordPathsAreDirect(uploads, e.upload);
        } else {
          assert FinalPath(up.target)[0] == '.' && TempPath(up)[0] == '.' && RECORDS_PREFIX[0] == 'r';
          assert !StartsWith(FinalPath(up.target), RECORDS_PREFIX) && !StartsWith(TempPath(up), RECORDS_PREFIX);
        }
      }
    }
  }

  /** In particular, slash-free ids make every listing exact, whatever temp objects are lying about. */
  lemma ListingIsExact(kind: Kind, uploads: seq<Upload>, run: seq<Event>, entries: seq<Path>)
    requires FreshNames(uploads) && SlashFree(uploads) && Lists(kind, Run(uploads, run), entries)
    ensures Exact(Registers(uploads, run), entries)
  {
    StoreRefinesRegisters(uploads, run);
    SlashFreeRunsPlaceDirectly(uploads, run);
    ListingIsExactIff(kind, uploads, run, entries);
    var s := Run(uploads, run);
    forall id | Record(id) in Registers(uploads, run) ensures '/' !in id {
      RecordPathShape(id);
      assert FinalPath(Record(id)) in s.store;
    }
    forall id | id != "" && '/' !in id ensures !Shadowed(Sources(kind, s), id) {
      NothingBelowRecords(kind, s, id);
    }
  }

  lemma NothingBelowRecords(kind: Kind, s: State, id: string)
    requires DirectlyPlaced(s)
    ensures !Shadowed(Sources(kind, s), id)
  {
    forall p | p in Sources(kind, s) ensures !StartsWith(p, RecordPath(id) + "/") {
      if StartsWith(p, RecordPath(id) + "/") {
        DirectoryHasSlash(p, id + JSON);
        assert false;
      }
    }
  }

  lemma DirectoryHasSlash(p: Path, segment: string)
    requires StartsWith(p, RECORDS_PREFIX + segment + "/")
    ensures StartsWith(p, RECORDS_PREFIX) && '/' in p[|RECORDS_PREFIX|..]
  {
    var e := RECORDS_PREFIX + segment + "/";
    assert p[..|RECORDS_PREFIX|] == e[..|RECORDS_PREFIX|] == RECORDS_PREFIX;
    assert e[|e| - 1] == '/' && p[|e| - 1] == p[..|e|][|e| - 1];
    assert p[|RECORDS_PREFIX|..][|e| - 1 - |RECORDS_PREFIX|] == '/';
  }

  /** An upload run on its own stores precisely its object. */
  lemma LoneUpload(uploads: seq<Upload>, u: nat)
    requires u < |uploads| && IsUuid(uploads[u].uuid)
    ensures var run := [WriteTemp(u, Complete), Rename(u, true)];
            && Run(uploads, run).store == map[FinalPath(uploads[u].target) := Whole(uploads[u].body)]
            && Registers(uploads, run) == map[uploads[u].target := uploads[u].body]
            && FinalPath(uploads[u].target) in Run(uploads, run).placed
  {
    TempIsNeverFinal(uploads[u], uploads[u].target);
    hide TempPath, FinalPath;
    var run := [WriteTemp(u, Complete), Rename(u, true)];
    assert run[..1] == [WriteTemp(u, Complete)] && run[..1][..0] == [];
    var s1 := Next(uploads, State(map[], {}, map[]), WriteTemp(u, Complete));
    assert Run(uploads, run[..1]) == s1;
    assert Run(uploads, run) == Next(uploads, s1, Rename(u, true));
    assert Registers(uploads, run[..1]) == map[];
  }

  /**
   Both failures happen in both kinds of store: upload just a record whose id has `.json/` after a
   slash-free first part, and every listing omits that id and reports the first part, not stored.
   */
  lemma SlashedIdListsPhantom(kind: Kind, uploads: seq<Upload>, a: string, b: string) returns (run: seq<Event>)
    requires uploads != [] && uploads[0].target == Record(a + ".json/" + b) && IsUuid(uploads[0].uuid)
    requires a != "" && '/' !in a
    ensures Registers(uploads, run).Keys == {Record(a + ".json/" + b)} && Record(a) !in Registers(uploads, run)
    ensures forall entries :: Lists(kind, Run(uploads, run), entries) ==>
              a in Extracted(entries) && a + ".json/" + b !in Extracted(entries)
  {
    run := [WriteTemp(0, Complete), Rename(0, true)];
    LoneUpload(uploads, 0);
    var id, s := a + ".json/" + b, Run(uploads, run);
    assert |id| > |a| && id[|a| + 5] == '/';
    BelowRecordShadows(Sources(kind, s), a, b);
    hide Run, Registers, Extracted, RecordPath, IsListing;
    forall entries | Lists(kind, s, entries) ensures a in Extracted(entries) && id !in Extracted(entries) {
      ListedIff(s.store, Sources(kind, s), entries, a);
      ListedIff(s.store, Sources(kind, s), entries, id);
    }
  }

  lemma BelowRecordShadows(sources: set<Path>, a: string, b: string)
    requires RecordPath(a + ".json/" + b) in sources
    ensures Shadowed(sources, a)
  {
    var p := RecordPath(a + ".json/" + b);
    assert p == RecordPath(a) + "/" + (b + JSON);
    assert p[..|RecordPath(a) + "/"|] == RecordPath(a) + "/";
  }

  /**
   The kinds differ: delete that record again, and nothing is stored. Where directories are prefixes
   every listing is exact; where they stay, every listing still reports the first part.
   */
  lemma DeletedRecordListsPhantom(uploads: seq<Upload>, a: string, b: string) returns (run: seq<Event>)
    requires uploads != [] && uploads[0].target == Record(a + ".json/" + b) && IsUuid(uploads[0].uuid)
    requires a != "" && '/' !in a
    ensures Run(uploads, run).store == map[] && Registers(uploads, run) == map[]
    ensures forall entries :: Lists(Prefixes, Run(uploads, run), entries) ==> Exact(Registers(uploads, run), entries)
    ensures forall entries :: Lists(Directories, Run(uploads, run), entries) ==> a in Extracted(entries)
  {
    var target := uploads[0].target;
    var upload := [WriteTemp(0, Complete), Rename(0, true)];
    run := upload + [Erase(target, true)];
    LoneUpload(uploads, 0);
    assert run[..|run| - 1] == upload;
    var s := Run(uploads, run);
    assert s == Next(uploads, Run(uploads, upload), Erase(target, true));
    assert s.store == map[] && Registers(uploads, run) == map[];
    BelowRecordShadows(s.placed, a, b);
    hide Run, Registers, Extracted, RecordPath, IsListing;
    forall entries | Lists(Directories, s, entries) ensures a in Extracted(entries) {
      ListedIff(s.store, s.placed, entries, a);
    }
    forall entries | Lists(Prefixes, s, entries) ensures Exact(Registers(uploads, run), entries) {
      EmptyPrefixListing(s.store, entries);
    }
  }

  lemma EmptyPrefixListing(store: map<Path, Object>, entries: seq<Path>)
    requires store == map[] && IsListing(store, {}, entries)
    ensures Exact(map[], entries)
  {
    forall id ensures id !in Extracted(entries) {
      ListedIff(store, {}, entries, id);
    }
    assert Extracted(entries) == [] by {
      if Extracted(entries) != [] { assert Extracted(entries)[0] in Extracted(entries); }
    }
  }
}
