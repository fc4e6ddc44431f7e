/**
 The speculative vault database: a guard that removes the database files it caused to appear unless
 it is committed, and the restore of an `.okb` backup that runs under it.
 */
module PendingVault {
  import opened Prelude
  import opened FileStore
  import opened DbRecovery

  function VaultDb(dir: Path): Path { dir + "/vault.db" }

  function VaultDbPaths(dir: Path): (paths: seq<Path>)
    ensures |paths| == 4
  {
    var db := VaultDb(dir);
    [db, WalOf(db), ShmOf(db), BackupOf(db)]
  }

  lemma VaultDbPathsDiffer(dir: Path)
    ensures forall i, j :: 0 <= i < j < 4 ==> VaultDbPaths(dir)[i] != VaultDbPaths(dir)[j]
  {
    var p, n := VaultDbPaths(dir), |VaultDb(dir)|;
    assert |p[0]| == n && |p[1]| == n + 4 && |p[2]| == n + 4 && |p[3]| == n + 14;
    assert p[1][n + 1] == 'w' && p[2][n + 1] == 's';
  }

  function PathSet(paths: seq<Path>): set<Path> { set p | p in paths }

  function DbPathSet(dir: Path): set<Path> { PathSet(VaultDbPaths(dir)) }

  lemma DbFilesAmongPaths(dir: Path)
    ensures DbFiles(VaultDb(dir)) <= DbPathSet(dir)
    ensures VaultDb(dir) in DbPathSet(dir) && BackupOf(VaultDb(dir)) in DbPathSet(dir) - DbFiles(VaultDb(dir))
  {
    var paths, db := VaultDbPaths(dir), VaultDb(dir);
    assert paths[0] == db && paths[1] == WalOf(db) && paths[2] == ShmOf(db) && paths[3] == BackupOf(db);
    BackupIsSeparate(db);
    assert BackupOf(db) in DbFiles(BackupOf(db));
  }

  datatype Record = Record(fields: nat)

  /** `OnDisk` is open on the database of the vault directory. */
  datatype Runtime = Locked | InMemory | OnDisk

  class Executor {
    const vaultDir: Path
    /** How the vault reads its records from its database. */
    const recordsIn: Pages -> seq<Record>
    /** What the vault writes when it takes or refuses a record. */
    const creating: (Disk, Record, bool) -> seq<Write>
    var runtime: Runtime
    var fileBacked: bool
    var verifiedPassword: Option<string>

    constructor (vaultDir: Path, recordsIn: Pages -> seq<Record>, creating: (Disk, Record, bool) -> seq<Write>)
      ensures this.vaultDir == vaultDir && this.recordsIn == recordsIn && this.creating == creating
      ensures runtime == InMemory && !fileBacked && verifiedPassword == None
    {
      this.vaultDir, this.recordsIn, this.creating := vaultDir, recordsIn, creating;
      runtime, fileBacked, verifiedPassword := InMemory, false, None;
    }

    /** The records of the vault on this disk; `None` if there is no readable vault. */
    function Held(disk: Disk): Option<seq<Record>> {
      if VaultDb(vaultDir) !in disk then None
      else match Logical(disk, VaultDb(vaultDir))
        case Some(pages) => Some(recordsIn(pages))
        case None => None
    }
  }

  /** The paths of a list at which there is no file. */
  function Absent(paths: seq<Path>, disk: Disk): seq<Path> {
    if paths == [] then []
    else
      var n := |paths| - 1;
      Absent(paths[..n], disk) + if paths[n] in disk then [] else [paths[n]]
  }

  /** The database paths a guard made on this disk has to remove. */
  function NewPaths(dir: Path, before: Disk): seq<Path> {
    Absent(VaultDbPaths(dir), before)
  }

  lemma {:induction false} OneMoreAbsent(paths: seq<Path>, disk: Disk, i: nat)
    requires i < |paths|
    ensures Absent(paths[..0], disk) == []
    ensures var earlier := Absent(paths[..i], disk);
            Absent(paths[..i + 1], disk) == if paths[i] in disk then earlier else earlier + [paths[i]]
  {
    assert paths[..i + 1][..i] == paths[..i];
    assert Absent(paths[..i], disk) + [] == Absent(paths[..i], disk);
  }

  /** A path is removed or kept, never both: those removed are the ones absent before. */
  lemma {:induction false} AbsentIff(paths: seq<Path>, disk: Disk)
    ensures forall p :: p in Absent(paths, disk) <==> p in paths && p !in disk
  {
    if paths != [] {
      var n := |paths| - 1;
      AbsentIff(paths[..n], disk);
      assert paths == paths[..n] + [paths[n]];
    }
  }

  /** The paths whose removal succeeds, the first attempt being operation number `from`. */
  function Gone(paths: seq<Path>, fails: nat -> bool, from: nat): set<Path> {
    if paths == [] then {}
    else
      var n := |paths| - 1;
      Gone(paths[..n], fails, from) + if fails(from + n) then {} else {paths[n]}
  }

  function FirstFailed(paths: seq<Path>, fails: nat -> bool, from: nat): Option<Path> {
    if paths == [] then None
    else
      var n := |paths| - 1;
      var earlier := FirstFailed(paths[..n], fails, from);
      if earlier.None? && fails(from + n) then Some(paths[n]) else earlier
  }

  /** Without a failure all of them are gone; with one, the first path that failed is reported. */
  lemma {:induction false} RemovalsIff(paths: seq<Path>, fails: nat -> bool, from: nat)
    ensures FirstFailed(paths, fails, from).Some? <==> SomeFails(fails, from, from + |paths|)
    ensures match FirstFailed(paths, fails, from)
            case None => forall p :: p in Gone(paths, fails, from) <==> p in paths
            case Some(p) => exists k: nat :: k < |paths| && IsFirstFailure(paths, fails, from, k) && paths[k] == p
    ensures forall p :: p in Gone(paths, fails, from) ==> p in paths
  {
    if paths != [] {
      var n := |paths| - 1;
      var front := paths[..n];
      RemovalsIff(front, fails, from);
      assert forall p :: p in paths <==> p in front || p == paths[n];
      if FirstFailed(front, fails, from).Some? {
        var k: nat :|
          k < n && IsFirstFailure(front, fails, from, k) && front[k] == FirstFailed(front, fails, from).value;
        assert IsFirstFailure(paths, fails, from, k) && paths[k] == front[k];
        assert fails(from + k);
      } else if fails(from + n) {
        assert IsFirstFailure(paths, fails, from, n) by {
          assert forall j: nat :: from <= j < from + n && fails(j) ==> SomeFails(fails, from, from + n);
        }
      }
    }
  }

  ghost predicate IsFirstFailure(paths: seq<Path>, fails: nat -> bool, from: nat, k: nat) {
    k < |paths| && fails(from + k) && forall n: nat :: from <= n < from + k ==> !fails(n)
  }

  /** The state recorded before the last `n`. */
  function BeforeLast(history: seq<Disk>, n: nat): Disk {
    if n < |history| then history[|history| - 1 - n] else map[]
  }

  class Guard {
    const executor: Executor
    const fs: FileSystem
    const existedBefore: seq<bool>
    var committed: bool
    ghost const before: Disk

    ghost predicate Valid()
      reads this, fs, executor
    {
      && |existedBefore| == 4 && fs.Logged()
      && forall i :: 0 <= i < 4 ==> (existedBefore[i] <==> VaultDbPaths(executor.vaultDir)[i] in before)
    }

    ghost function Created(): seq<Path> {
      NewPaths(executor.vaultDir, before)
    }

    constructor (executor: Executor, fs: FileSystem, existedBefore: seq<bool>, ghost before: Disk)
      requires |existedBefore| == 4 && fs.Logged()
      requires forall i :: 0 <= i < 4 ==> (existedBefore[i] <==> VaultDbPaths(executor.vaultDir)[i] in before)
      ensures Valid() && !committed
      ensures this.executor == executor && this.fs == fs && this.existedBefore == existedBefore && this.before == before
    {
      this.executor, this.fs, this.existedBefore, this.before := executor, fs, existedBefore, before;
      committed := false;
    }

    /**
     The removal loop shared by rollback and drop. Every path absent before is attempted once, in
     order, whatever fails; what is gone afterwards is exactly those whose removal did not fail.
     */
    method RemoveNewFiles() returns (firstFailure: Option<Path>)
      requires Valid()
      modifies fs
      ensures Valid() && Attempted(old(fs.files), old(fs.history), old(fs.removals), old(fs.operations))
      ensures fs.files == old(fs.files) - Gone(Created(), fs.fails, old(fs.operations))
      ensures firstFailure == FirstFailed(Created(), fs.fails, old(fs.operations))
    {
      hide VaultDbPaths, Absent, Gone, FirstFailed;
      var paths := VaultDbPaths(executor.vaultDir);
      firstFailure := None;
      OneMoreAbsent(paths, before, 0);
      NothingRemoved(fs.fails, fs.operations);
      for i := 0 to 4
        invariant fs.Logged() && old(fs.history) <= fs.history
        invariant var attempted := Absent(paths[..i], before);
                  && |fs.history| == |old(fs.history)| + |attempted|
                  && fs.operations == old(fs.operations) + |attempted|
                  && fs.removals == old(fs.removals) + attempted
                  && fs.files == old(fs.files) - Gone(attempted, fs.fails, old(fs.operations))
                  && firstFailure == FirstFailed(attempted, fs.fails, old(fs.operations))
      {
        OneMoreAbsent(paths, before, i);
        if existedBefore[i] {
          continue;
        }
        OneMoreRemoved(Absent(paths[..i], before), paths[i], fs.fails, old(fs.operations));
        var outcome := fs.Remove(paths[i]);
        if outcome.RemoveFailed? && firstFailure.None? {
          firstFailure := Some(paths[i]);
        }
      }
      assert paths[..4] == paths;
    }

    /** Every created path was attempted, with one recorded state for each attempt. */
    ghost predicate Attempted(files: Disk, history: seq<Disk>, removals: seq<Path>, operations: nat)
      reads this, fs, executor
    {
      && fs.operations == operations + |Created()| && fs.removals == removals + Created()
      && history <= fs.history && |fs.history| == |history| + |Created()|
    }

    /** Locking the runtime drops the vault it holds, and with it the connection to its database. */
    method LockRuntime()
      requires fs.Logged()
      modifies fs`files, fs`history, executor`runtime, executor`fileBacked
      ensures fs.Logged() && old(fs.history) <= fs.history
      ensures executor.runtime == Locked && !executor.fileBacked
      ensures Closed(old(fs.files), fs.files)
    {
      if executor.runtime.OnDisk? {
        CloseConnection(fs, VaultDb(executor.vaultDir));
      }
      executor.runtime := Locked;
      executor.fileBacked := false;
    }

    /** Closing the vault's connection changes its database files only, and not what they read as. */
    ghost predicate Closed(earlier: Disk, closed: Disk) {
      var db := VaultDb(executor.vaultDir);
      && SameOutside(closed, earlier, DbFiles(db))
      && Logical(closed, db) == Logical(earlier, db) && (db in closed <==> db in earlier)
    }

    /** The state recorded when the connection was closed, before the removals. */
    ghost function ClosedDisk(): Disk
      reads fs
    {
      BeforeLast(fs.history, |Created()|)
    }

    /**
     What cleaning up leaves: the connection was closed, then the created paths are gone save those
     whose removal failed. If none failed, no database path is left that was absent before.
     */
    ghost predicate CleanedUp(earlier: Disk, operations: nat)
      reads fs
    {
      && fs.operations == operations + |Created()|
      && Closed(earlier, ClosedDisk())
      && fs.files == ClosedDisk() - Gone(Created(), fs.fails, operations)
      && (!SomeFails(fs.fails, operations, fs.operations) ==> OnlyEarlierPathsLeft(earlier, fs.files))
    }

    /**
     Of the database paths, only those are left that were there before the guard was made; the main
     file and the migration backup are left exactly if they were. Other paths are untouched.
     */
    ghost predicate OnlyEarlierPathsLeft(earlier: Disk, now: Disk) {
      var db := VaultDb(executor.vaultDir);
      && SameOutside(now, earlier, DbPathSet(executor.vaultDir))
      && (forall p :: p in VaultDbPaths(executor.vaultDir) && p in now ==> p in before)
      && (forall p | p in {db, BackupOf(db)} :: p in now <==> p in earlier && p in before)
    }

    lemma EarlierPathsLeft(earlier: Disk, closed: Disk, operations: nat)
      requires Closed(earlier, closed) && !SomeFails(fs.fails, operations, operations + |Created()|)
      ensures OnlyEarlierPathsLeft(earlier, closed - Gone(Created(), fs.fails, operations))
    {
      var dir, db := executor.vaultDir, VaultDb(executor.vaultDir);
      var now := closed - Gone(Created(), fs.fails, operations);
      AbsentIff(VaultDbPaths(dir), before);
      RemovalsIff(Created(), fs.fails, operations);
      DbFilesAmongPaths(dir);
      hide VaultDbPaths, BackupOf, DbFiles, Logical, Absent, Gone, FirstFailed, SomeFails;
      OutsideAgrees(closed, earlier, DbFiles(db));
      forall p | p !in DbPathSet(dir) ensures (p in now <==> p in earlier) && (p in now ==> now[p] == earlier[p]) { }
      assert now - DbPathSet(dir) == earlier - DbPathSet(dir);
    }

    /** Drop: nothing after a commit or an explicit rollback, otherwise lock and clean up. */
    method Drop()
      requires Valid()
      modifies fs, executor`runtime, executor`fileBacked
      ensures Valid()
      ensures old(committed) ==>
                && fs.files == old(fs.files) && fs.removals == old(fs.removals)
                && fs.operations == old(fs.operations) && fs.history == old(fs.history)
                && executor.runtime == old(executor.runtime) && executor.fileBacked == old(executor.fileBacked)
      ensures !old(committed) ==>
                && executor.runtime == Locked && !executor.fileBacked
                && fs.removals == old(fs.removals) + Created() && CleanedUp(old(fs.files), old(fs.operations))
    {
      if committed {
        return;
      }
      LockRuntime();
      ghost var closed, operations := fs.files, fs.operations;
      var firstFailure := RemoveNewFiles();
      if !SomeFails(fs.fails, operations, fs.operations) { EarlierPathsLeft(old(fs.files), closed, operations); }
    }

    /** `commit` consumes the guard, so its drop runs right after. */
    method Commit()
      requires Valid()
      modifies this`committed, fs, executor`runtime, executor`fileBacked
      ensures Valid() && committed && executor.fileBacked
      ensures executor.runtime == old(executor.runtime) && fs.files == old(fs.files) && fs.removals == old(fs.removals)
      ensures fs.operations == old(fs.operations)
    {
      committed := true;
      executor.fileBacked := true;
      Drop();
    }

    /**
     `rollback` consumes the guard too. Every path absent before is attempted exactly once, failures
     notwithstanding and the drop included; the error names the first one whose removal failed.
     */
    method Rollback() returns (firstFailure: Option<Path>)
      requires Valid()
      modifies this`committed, fs, executor`runtime, executor`fileBacked
      ensures Valid() && committed
      ensures executor.runtime == Locked && !executor.fileBacked
      ensures fs.removals == old(fs.removals) + Created() && CleanedUp(old(fs.files), old(fs.operations))
      ensures firstFailure == FirstFailed(Created(), fs.fails, old(fs.operations))
    {
      committed := true;
      LockRuntime();
      ghost var closed, operations := fs.files, fs.operations;
      firstFailure := RemoveNewFiles();
      if !SomeFails(fs.fails, operations, fs.operations) { EarlierPathsLeft(old(fs.files), closed, operations); }
      Drop();
    }
  }

  lemma NothingRemoved(fails: nat -> bool, from: nat)
    ensures Gone([], fails, from) == {} && FirstFailed([], fails, from) == None
  {
  }

  lemma {:induction false} OneMoreRemoved(paths: seq<Path>, last: Path, fails: nat -> bool, from: nat)
    ensures var n := from + |paths|;
            && Gone(paths + [last], fails, from) == Gone(paths, fails, from) + (if fails(n) then {} else {last})
            && FirstFailed(paths + [last], fails, from) ==
               if FirstFailed(paths, fails, from).None? && fails(n) then Some(last) else FirstFailed(paths, fails, from)
  {
    assert (paths + [last])[..|paths|] == paths;
  }

  /** The log was checkpointed away when the connection was closed, or existed before. */
  predicate Settled(dir: Path, before: Disk, closed: Disk) {
    WalOf(VaultDb(dir)) in before || WalOf(VaultDb(dir)) !in closed
  }

  /**
   What the vault holds once the created paths are gone. A database that was absent before is gone.
   One that was there still reads as it did when its connection was closed, provided its log was
   checkpointed away on closing or was there before, too. A log created since is removed, and what
   remains is what the main file holds without it.
   */
  lemma CleanupKeepsRecords(e: Executor, before: Disk, closed: Disk, now: Disk)
    requires now == closed - PathSet(NewPaths(e.vaultDir, before))
    ensures VaultDb(e.vaultDir) !in before ==> e.Held(now) == None
    ensures VaultDb(e.vaultDir) in before ==>
              e.Held(now) == if Settled(e.vaultDir, before, closed) then e.Held(closed)
                             else e.Held(closed - {WalOf(VaultDb(e.vaultDir))})
  {
    var dir, db := e.vaultDir, VaultDb(e.vaultDir);
    AbsentIff(VaultDbPaths(dir), before);
    DbFilesAmongPaths(dir);
    assert db in DbFiles(db) && WalOf(db) in DbFiles(db);
    hide VaultDbPaths, BackupOf, DbFiles, Absent;
    if db in before {
      assert db in closed <==> db in now;
      assert Settled(dir, before, closed) ==> (WalOf(db) in closed <==> WalOf(db) in now);
    }
  }

  lemma OutsideAgrees(a: Disk, b: Disk, paths: set<Path>)
    requires SameOutside(a, b, paths)
    ensures forall p :: p !in paths ==> (p in a <==> p in b) && (p in a ==> a[p] == b[p])
  {
    assert forall p :: p !in paths ==> (p in a <==> p in a - paths) && (p in b <==> p in b - paths);
    assert forall p :: p in a - paths ==> a[p] == (a - paths)[p] == b[p];
  }

  /** Opening or creating the vault's database: what SQLite writes. */
  datatype Opening = Opening(ok: bool, writes: seq<Write>)

  /** Opening succeeds on a readable vault, and keeps its records, or creates an empty one. */
  predicate OpensVault(e: Executor, disk: Disk, opening: Opening) {
    && Within(opening.writes, DbPathSet(e.vaultDir))
    && (opening.ok ==> (VaultDb(e.vaultDir) in disk ==> e.Held(disk).Some?)
                       && e.Held(AllApplied(disk, opening.writes)) == Some(HeldOrNone(e, disk)))
  }

  function HeldOrNone(e: Executor, disk: Disk): seq<Record> {
    if e.Held(disk).Some? then e.Held(disk).value else []
  }

  /**
   `begin_file_backed_vault_db`. A failed opening returns no guard and leaves the executor alone,
   but nothing cleans up the files it may have created. Replacing a runtime that was open on the
   same database closes that runtime's connection.
   */
  method Begin(executor: Executor, fs: FileSystem, opening: Opening) returns (guard: Option<Guard>)
    requires fs.Logged() && OpensVault(executor, fs.files, opening)
    modifies fs`files, fs`history, executor`runtime
    ensures fs.Logged()
    ensures SameOutside(fs.files, old(fs.files), DbPathSet(executor.vaultDir))
    ensures guard.Some? <==> opening.ok
    ensures guard.None? ==>
      executor.runtime == old(executor.runtime) && fs.files == AllApplied(old(fs.files), opening.writes)
    ensures guard.Some? ==>
      executor.runtime == OnDisk && executor.Held(fs.files) == Some(HeldOrNone(executor, old(fs.files)))
    ensures guard.Some? ==> fresh(guard.value) && guard.value.Valid() && !guard.value.committed
                            && guard.value.executor == executor && guard.value.fs == fs
                            && guard.value.before == old(fs.files)
  {
    ghost var before := fs.files;
    var paths := VaultDbPaths(executor.vaultDir);
    var existedBefore := seq(4, i requires 0 <= i < 4 reads fs => paths[i] in fs.files);
    fs.Perform(opening.writes, DbPathSet(executor.vaultDir));
    if !opening.ok {
      return None;
    }
    if executor.runtime.OnDisk? {
      ghost var afterOpening := fs.files;
      CloseConnection(fs, VaultDb(executor.vaultDir));
      DbFilesAmongPaths(executor.vaultDir);
      SameOutsideWidens(fs.files, afterOpening, before, DbFiles(VaultDb(executor.vaultDir)),
        DbPathSet(executor.vaultDir));
    }
    executor.runtime := OnDisk;
    var g := new Guard(executor, fs, existedBefore, before);
    guard := Some(g);
  }

  datatype RestoreRequest = RestoreRequest(
    path: Path, hasOkbExtension: bool,
    parsed: Option<seq<Record>>,        // `None`: the backup does not decrypt or parse
    masterPassword: Option<string>,
    keystoreUnlocks: bool,
    opening: Opening,
    vaultUnlocks: bool,
    accepts: nat -> bool)               // whether the vault takes the k-th record

  datatype RestoreOutcome =
    | EmptyPath | InvalidExtension | MissingBackup | Undecryptable | NoRecords | PasswordRequired
    | KeystoreUnlockFailed | OpenFailed
    | UnlockFailed | ImportFailed(imported: nat, failed: nat)
    | Restored

  function Verdicts(accepts: nat -> bool, n: nat): (r: seq<bool>)
    ensures |r| == n
  {
    seq(n, k requires 0 <= k < n => accepts(k))
  }

  /** The vault's verdicts on the parsed records, once it is open and unlocked. */
  function Accepted(r: RestoreRequest): seq<bool> {
    if r.parsed.Some? then Verdicts(r.accepts, |r.parsed.value|) else []
  }

  /** How many records were stored, given which of them the vault accepted. */
  function Stored(accepted: seq<bool>): nat {
    if accepted == [] then 0
    else Stored(accepted[..|accepted| - 1]) + if accepted[|accepted| - 1] then 1 else 0
  }

  predicate AllStored(accepted: seq<bool>) {
    forall k :: 0 <= k < |accepted| ==> accepted[k]
  }

  lemma {:induction false} StoredAll(accepted: seq<bool>)
    ensures Stored(accepted) <= |accepted|
    ensures Stored(accepted) == |accepted| <==> AllStored(accepted)
  {
    if accepted != [] {
      var n := |accepted| - 1;
      StoredAll(accepted[..n]);
      assert forall k :: 0 <= k < n ==> accepted[..n][k] == accepted[k];
    }
  }

  /** The accepted ones of `items`, in order. */
  function Taken(items: seq<Record>, accepted: seq<bool>): seq<Record>
    requires |items| == |accepted|
  {
    if items == [] then []
    else
      var n := |items| - 1;
      Taken(items[..n], accepted[..n]) + if accepted[n] then [items[n]] else []
  }

  lemma {:induction false} TakenAll(items: seq<Record>, accepted: seq<bool>)
    requires |items| == |accepted|
    ensures |Taken(items, accepted)| == Stored(accepted)
    ensures AllStored(accepted) ==> Taken(items, accepted) == items
  {
    if items != [] {
      var n := |items| - 1;
      var front := items[..n];
      TakenAll(front, accepted[..n]);
      assert Taken(items, accepted) == Taken(front, accepted[..n]) + if accepted[n] then [items[n]] else [];
      assert items == front + [items[n]];
    }
  }

  /** There is something to import; from here on a cached password is used up. */
  predicate Importable(r: RestoreRequest, disk: Disk) {
    && r.path != "" && r.hasOkbExtension && r.path in disk
    && r.parsed.Some? && r.parsed.value != []
  }

  /** The checks made before the import, up to opening the pending database. */
  predicate Ready(r: RestoreRequest, disk: Disk, cachedPassword: Option<string>) {
    && Importable(r, disk)
    && (r.masterPassword.Some? || cachedPassword.Some?)
    && r.keystoreUnlocks && r.opening.ok
  }

  /** Taking or refusing a record is a write to the database files with just that effect on the records. */
  ghost predicate VaultWorks(e: Executor) {
    forall disk: Disk, item: Record, ok: bool :: e.Held(disk).Some? ==>
      && Within(e.creating(disk, item, ok), DbFiles(VaultDb(e.vaultDir)))
      && e.Held(AllApplied(disk, e.creating(disk, item, ok))) == Some(e.Held(disk).value + if ok then [item] else [])
  }

  /**
   What a failed restore leaves. `taken` was stored; then the connection was closed and the created
   paths were removed but for those whose removal failed. If none failed, no new database path is
   left, and the vault on disk holds what it held before exactly if there was none or nothing was
   stored, provided no log created since outlived the closing; in that case the vault holds what its
   main file does without that log.
   */
  ghost predicate Undone(e: Executor, before: Disk, closed: Disk, now: Disk, taken: seq<Record>,
                         fails: nat -> bool, operations: nat)
  {
    var created := NewPaths(e.vaultDir, before);
    && now == closed - Gone(created, fails, operations)
    && e.Held(closed) == Some(HeldOrNone(e, before) + taken)
    && (!SomeFails(fails, operations, operations + |created|) ==> UndoneOnDisk(e, before, closed, now, taken))
  }

  ghost predicate UndoneOnDisk(e: Executor, before: Disk, closed: Disk, now: Disk, taken: seq<Record>) {
    && (forall p :: p in VaultDbPaths(e.vaultDir) && p in now ==> p in before)
    && (if VaultDb(e.vaultDir) !in before || Settled(e.vaultDir, before, closed)
        then e.Held(now) == e.Held(before) <==> VaultDb(e.vaultDir) !in before || taken == []
        else e.Held(now) == e.Held(closed - {WalOf(VaultDb(e.vaultDir))}))
  }

  lemma CreatedGoneIsUndone(e: Executor, before: Disk, closed: Disk, now: Disk, taken: seq<Record>)
    requires now == closed - PathSet(NewPaths(e.vaultDir, before))
    requires VaultDb(e.vaultDir) in before ==> e.Held(before).Some?
    requires e.Held(closed) == Some(HeldOrNone(e, before) + taken)
    ensures UndoneOnDisk(e, before, closed, now, taken)
  {
    AbsentIff(VaultDbPaths(e.vaultDir), before);
    CleanupKeepsRecords(e, before, closed, now);
    LongerIff(HeldOrNone(e, before), taken);
    hide VaultDbPaths, Absent, Settled, Logical;
  }

  /**
   `handle_restore_database_from_okb`. Once the pending database is open, either every parsed record
   was stored, in order, after what the vault held, and the executor is file-backed, or the runtime
   is locked and the restore is undone as far as `Undone` says: records stored in a vault that
   existed before stay.
   */
  method RestoreFromOkb(executor: Executor, fs: FileSystem, r: RestoreRequest) returns (outcome: RestoreOutcome)
    requires fs.Logged() && OpensVault(executor, fs.files, r.opening) && VaultWorks(executor)
    modifies fs, executor
    ensures fs.Logged()
    ensures var ready := Ready(r, old(fs.files), old(executor.verifiedPassword));
            && (outcome.Restored? <==> ready && r.vaultUnlocks && AllStored(Accepted(r)))
            && (outcome.UnlockFailed? <==> ready && !r.vaultUnlocks)
            && (outcome.ImportFailed? <==> ready && r.vaultUnlocks && !AllStored(Accepted(r)))
            && (!ready ==>
                 && executor.runtime == old(executor.runtime) && executor.fileBacked == old(executor.fileBacked)
                           && fs.removals == old(fs.removals)
                           && (fs.files == old(fs.files) || outcome.OpenFailed?))
    ensures outcome.Restored? ==>
              && executor.runtime == OnDisk && executor.fileBacked && fs.removals == old(fs.removals)
              && executor.Held(fs.files) == Some(HeldOrNone(executor, old(fs.files)) + r.parsed.value)
    ensures outcome.UnlockFailed? || outcome.ImportFailed? ==>
              && executor.runtime == Locked && !executor.fileBacked
              && fs.removals == old(fs.removals) + NewPaths(executor.vaultDir, old(fs.files))
              && var closed := BeforeLast(fs.history, |NewPaths(executor.vaultDir, old(fs.files))|);
                 Undone(executor, old(fs.files), closed, fs.files,
                        if outcome.UnlockFailed? then [] else Taken(r.parsed.value, Accepted(r)),
                        fs.fails, old(fs.operations))
    ensures outcome.ImportFailed? ==>
              && outcome.imported == Stored(Accepted(r)) == |Taken(r.parsed.value, Accepted(r))| && outcome.failed > 0
              && outcome.imported + outcome.failed == |r.parsed.value|
    ensures executor.verifiedPassword ==
              if Importable(r, old(fs.files)) && r.masterPassword.None? then None else old(executor.verifiedPassword)
    ensures SameOutside(fs.files, old(fs.files), DbPathSet(executor.vaultDir))
  {
    hide VaultDbPaths, DbFiles, Stored, Taken, AllStored, Undone, NewPaths, VaultWorks;
    if r.path == "" {
      return EmptyPath;
    }
    if !r.hasOkbExtension {
      return InvalidExtension;
    }
    var present := fs.Exists(r.path);
    if !present {
      return MissingBackup;
    }
    if r.parsed.None? {
      return Undecryptable;
    }
    var items := r.parsed.value;
    if items == [] {
      return NoRecords;
    }
    var password := r.masterPassword;
    if password.None? {
      password := executor.verifiedPassword;
      executor.verifiedPassword := None;
    }
    if password.None? {
      return PasswordRequired;
    }
    if !r.keystoreUnlocks {
      return KeystoreUnlockFailed;
    }
    var begun := Begin(executor, fs, r.opening);
    if begun.None? {
      return OpenFailed;
    }
    var pending := begun.value;
    ghost var begunFiles, held := fs.files, HeldOrNone(executor, old(fs.files));
    if !r.vaultUnlocks {
      assert held + [] == held;
      Abandon(pending, []);
      return UnlockFailed;
    }
    var imported, errors := ImportAll(pending, items, r.accepts);
    StoredAll(Accepted(r));
    TakenAll(items, Accepted(r));
    DbFilesAmongPaths(executor.vaultDir);
    SameOutsideWidens(fs.files, begunFiles, old(fs.files), DbFiles(VaultDb(executor.vaultDir)),
      DbPathSet(executor.vaultDir));
    if errors > 0 || imported == 0 {
      Abandon(pending, Taken(items, Accepted(r)));
      return ImportFailed(imported, errors);
    }
    pending.Commit();
    outcome := Restored;
  }

  /** The vault takes or refuses a record; either way it writes to its database only. */
  method CreateRecord(pending: Guard, item: Record, accepts: bool) returns (ok: bool)
    requires pending.Valid() && pending.executor.Held(pending.fs.files).Some? && VaultWorks(pending.executor)
    modifies pending.fs`files, pending.fs`history
    ensures pending.Valid() && ok == accepts
    ensures pending.executor.Held(pending.fs.files)
         == Some(pending.executor.Held(old(pending.fs.files)).value + if ok then [item] else [])
    ensures SameOutside(pending.fs.files, old(pending.fs.files), DbFiles(VaultDb(pending.executor.vaultDir)))
  {
    ok := accepts;
    var writes := pending.executor.creating(pending.fs.files, item, ok);
    pending.fs.Perform(writes, DbFiles(VaultDb(pending.executor.vaultDir)));
  }

  lemma {:induction false} OneMoreTaken(held: seq<Record>, items: seq<Record>, accepted: seq<bool>, ok: bool)
    requires |accepted| < |items|
    ensures Stored(accepted + [ok]) == Stored(accepted) + if ok then 1 else 0
    ensures var n := |accepted|;
            held + Taken(items[..n + 1], accepted + [ok])
              == held + Taken(items[..n], accepted) + if ok then [items[n]] else []
  {
    var n := |accepted|;
    assert (accepted + [ok])[..n] == accepted && items[..n + 1][..n] == items[..n];
  }

  lemma {:induction false} NoneTaken(items: seq<Record>, accepted: seq<bool>)
    requires |items| == |accepted|
    ensures Stored([]) == 0 && Taken(items[..0], []) == []
  {
  }

  /** The import loop: every parsed record is offered to the pending vault, refusals are counted. */
  method ImportAll(pending: Guard, items: seq<Record>, accepts: nat -> bool) returns (imported: nat, errors: nat)
    requires pending.Valid() && pending.executor.Held(pending.fs.files).Some? && VaultWorks(pending.executor)
    modifies pending.fs`files, pending.fs`history
    ensures pending.Valid()
    ensures imported == Stored(Verdicts(accepts, |items|)) && imported + errors == |items|
    ensures pending.executor.Held(pending.fs.files)
         == Some(pending.executor.Held(old(pending.fs.files)).value + Taken(items, Verdicts(accepts, |items|)))
    ensures SameOutside(pending.fs.files, old(pending.fs.files), DbFiles(VaultDb(pending.executor.vaultDir)))
  {
    hide Stored, Taken, VaultDbPaths, DbFiles, VaultWorks;
    imported, errors := 0, 0;
    ghost var held := pending.executor.Held(pending.fs.files).value;
    NoneTaken([], []);
    assert items[..0] == [] && Verdicts(accepts, 0) == [] && held + [] == held;
    for i := 0 to |items|
      invariant pending.Valid()
      invariant pending.executor.Held(pending.fs.files) == Some(held + Taken(items[..i], Verdicts(accepts, i)))
      invariant imported == Stored(Verdicts(accepts, i)) && imported + errors == i
      invariant SameOutside(pending.fs.files, old(pending.fs.files), DbFiles(VaultDb(pending.executor.vaultDir)))
    {
      var ok := CreateRecord(pending, items[i], accepts(i));
      OneMoreTaken(held, items, Verdicts(accepts, i), ok);
      OneMoreVerdict(accepts, i);
      if ok {
        imported := imported + 1;
      } else {
        errors := errors + 1;
      }
    }
    assert items[..|items|] == items;
  }

  lemma OneMoreVerdict(accepts: nat -> bool, i: nat)
    ensures Verdicts(accepts, i + 1) == Verdicts(accepts, i) + [accepts(i)]
  {
  }

  lemma LongerIff<T>(s: seq<T>, t: seq<T>)
    ensures s + t == s <==> t == []
  {
    assert |s + t| == |s| + |t|;
  }

  /** The guard goes out of scope uncommitted, after `taken` was stored in its vault. */
  method Abandon(pending: Guard, ghost taken: seq<Record>)
    requires pending.Valid() && !pending.committed
    requires SameOutside(pending.fs.files, pending.before, DbPathSet(pending.executor.vaultDir))
    requires VaultDb(pending.executor.vaultDir) in pending.before ==> pending.executor.Held(pending.before).Some?
    requires pending.executor.Held(pending.fs.files) == Some(HeldOrNone(pending.executor, pending.before) + taken)
    modifies pending.fs, pending.executor`runtime, pending.executor`fileBacked
    ensures pending.fs.Logged()
    ensures pending.executor.runtime == Locked && !pending.executor.fileBacked
    ensures pending.fs.removals == old(pending.fs.removals) + NewPaths(pending.executor.vaultDir, pending.before)
    ensures SameOutside(pending.fs.files, pending.before, DbPathSet(pending.executor.vaultDir))
    ensures Undone(pending.executor, pending.before, BeforeLast(pending.fs.history, |pending.Created()|),
      pending.fs.files,
                   taken, pending.fs.fails, old(pending.fs.operations))
  {
    ghost var dir, earlier, operations := pending.executor.vaultDir, pending.fs.files, pending.fs.operations;
    GoneAmongPaths(dir, pending.before, pending.fs.fails, operations);
    pending.Drop();
    ghost var gone := Gone(pending.Created(), pending.fs.fails, operations);
    RemovalStaysWithin(pending.ClosedDisk(), earlier, pending.before, DbFiles(VaultDb(dir)), DbPathSet(dir), gone);
    UndoneIfRemoved(pending.executor, pending.before, earlier, pending.ClosedDisk(), taken, pending.fs.fails,
      operations);
  }

  lemma UndoneIfRemoved(e: Executor, before: Disk, earlier: Disk, closed: Disk, taken: seq<Record>,
                        fails: nat -> bool, operations: nat)
    requires VaultDb(e.vaultDir) in before ==> e.Held(before).Some?
    requires e.Held(earlier) == Some(HeldOrNone(e, before) + taken)
    requires Logical(closed, VaultDb(e.vaultDir)) == Logical(earlier, VaultDb(e.vaultDir))
    requires VaultDb(e.vaultDir) in closed <==> VaultDb(e.vaultDir) in earlier
    ensures Undone(e, before, closed, closed - Gone(NewPaths(e.vaultDir, before), fails, operations), taken, fails,
      operations)
  {
    GoneAmongPaths(e.vaultDir, before, fails, operations);
    assert e.Held(closed) == e.Held(earlier);
    hide NewPaths, DbPathSet, PathSet, Gone, Logical, SomeFails, UndoneOnDisk, HeldOrNone;
    var created := NewPaths(e.vaultDir, before);
    if !SomeFails(fails, operations, operations + |created|) {
      CreatedGoneIsUndone(e, before, closed, closed - Gone(created, fails, operations), taken);
    }
  }

  lemma GoneAmongPaths(dir: Path, before: Disk, fails: nat -> bool, from: nat)
    ensures var created := NewPaths(dir, before);
            && Gone(created, fails, from) <= DbPathSet(dir)
            && (!SomeFails(fails, from, from + |created|) ==> Gone(created, fails, from) == PathSet(created))
  {
    AbsentIff(VaultDbPaths(dir), before);
    RemovalsIff(NewPaths(dir, before), fails, from);
    hide VaultDbPaths, Absent, Gone, FirstFailed, SomeFails;
  }

  lemma RemovalStaysWithin(closed: Disk, earlier: Disk, before: Disk, files: set<Path>, paths: set<Path>,
                           gone: set<Path>)
    requires SameOutside(closed, earlier, files) && SameOutside(earlier, before, paths)
    requires files <= paths && gone <= paths
    ensures SameOutside(closed - gone, before, paths)
  {
    SameOutsideWidens(closed, earlier, before, files, paths);
    assert (closed - gone) - paths == closed - paths;
  }
}
