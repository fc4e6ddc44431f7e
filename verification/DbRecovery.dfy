/**
 The migration safety net of the vault database: snapshot, work, and restore on failure.

 A database is its main file, its write-ahead log and its shared-memory index. What it logically
 contains is the main file with the committed part of the log replayed over it. The work and the
 closing of its connection are arbitrary writes to those three files.
 */
module DbRecovery {
  import opened Prelude
  import opened FileStore

  type Pages = map<nat, nat>

  function Replay(pages: Pages, frames: seq<Frame>): Pages {
    if frames == [] then pages
    else
      var n := |frames| - 1;
      if frames[n].commits then Overlaid(pages, frames) else Replay(pages, frames[..n])
  }

  function Overlaid(pages: Pages, frames: seq<Frame>): Pages {
    if frames == [] then pages
    else
      var n := |frames| - 1;
      Overlaid(pages, frames[..n])[frames[n].page := frames[n].image]
  }

  function WalOf(db: Path): Path { db + "-wal" }

  function ShmOf(db: Path): Path { db + "-shm" }

  function DbFiles(db: Path): set<Path> { {db, WalOf(db), ShmOf(db)} }

  function LogFrames(disk: Disk, db: Path): seq<Frame> {
    if WalOf(db) in disk && disk[WalOf(db)].Wal? then disk[WalOf(db)].frames else []
  }

  /** What a connection to `db` would read; `None` if the main file is not a database. */
  function Logical(disk: Disk, db: Path): Option<Pages> {
    if db !in disk then Some(map[])
    else match disk[db]
      case Main(pages) => Some(Replay(pages, LogFrames(disk, db)))
      case _ => None
  }

  predicate Separate(db: Path, bak: Path) {
    DbFiles(db) !! DbFiles(bak)
  }

  lemma LogicalFrame(a: Disk, b: Disk, paths: set<Path>, db: Path)
    requires SameOutside(a, b, paths) && paths !! DbFiles(db)
    ensures Logical(a, db) == Logical(b, db)
    ensures forall p :: p in DbFiles(db) ==> (p in a <==> p in b) && (p in a ==> a[p] == b[p])
  {
    assert forall p :: p in DbFiles(db) ==> p !in paths;
    assert forall p :: p !in paths ==> (p in a <==> p in a - paths) && (p in b <==> p in b - paths);
    assert forall p :: p in a - paths ==> a[p] == (a - paths)[p] == b[p];
  }

  /** The database files hold exactly what they held on `before`. */
  ghost predicate Untouched(disk: Disk, before: Disk, db: Path) {
    forall p :: p in DbFiles(db) ==> SameAt(disk, before, p)
  }

  /**
   A crash in this state loses nothing: the database, or else its snapshot, reads as the database did
   before the call.
   */
  ghost predicate Recoverable(disk: Disk, before: Disk, db: Path, bak: Path) {
    Logical(disk, db) == Logical(before, db) || Logical(disk, bak) == Logical(before, db)
  }

  /** Writes that leave the database readable as it was after each of them, such as a checkpoint. */
  predicate Keeps(disk: Disk, db: Path, writes: seq<Write>) {
    && Within(writes, DbFiles(db))
    && forall i :: 0 <= i <= |writes| ==>
         var after := AllApplied(disk, writes[..i]);
         Logical(after, db) == Logical(disk, db) && (db in after <==> db in disk)
  }

  /** From `from` on the recorded states differ from `disk` in the database's files only, not in what they read as. */
  ghost predicate Closing(history: seq<Disk>, from: nat, disk: Disk, db: Path) {
    forall k :: from <= k < |history| ==>
      SameOutside(history[k], disk, DbFiles(db)) && Logical(history[k], db) == Logical(disk, db)
  }

  /**
   Dropping a connection: it may checkpoint the log and remove the sidecars, in any steps that keep
   what the database reads as; a transaction still open was never committed to the log.
   */
  method CloseConnection(fs: FileSystem, db: Path)
    requires fs.Logged()
    modifies fs`files, fs`history
    ensures fs.Logged() && old(fs.history) <= fs.history
    ensures SameOutside(fs.files, old(fs.files), DbFiles(db))
    ensures Logical(fs.files, db) == Logical(old(fs.files), db) && (db in fs.files <==> db in old(fs.files))
    ensures Closing(fs.history, |old(fs.history)|, old(fs.files), db)
  {
    var writes: seq<Write> := *;
    if Keeps(fs.files, db, writes) {
      assert writes[..|writes|] == writes;
      ghost var start, length := fs.files, |fs.history|;
      fs.Perform(writes, DbFiles(db));
      forall k | length <= k < |fs.history| ensures Logical(fs.history[k], db) == Logical(start, db) {
        assert fs.history[length + (k - length + 1) - 1] == AllApplied(start, writes[..k - length + 1]);
      }
    }
  }

  datatype Outcome = Succeeded | WorkFailed | BackupFailed | RestoreFailed

  /** `work` and, should it fail, what dropping its connection writes (a checkpoint, say). */
  datatype Work = Work(writes: seq<Write>, ok: bool, closing: seq<Write>)

  predicate OnlyDatabase(work: Work, db: Path) {
    Within(work.writes, DbFiles(db)) && Within(work.closing, DbFiles(db))
  }

  method RemoveBackupFiles(fs: FileSystem, bak: Path) returns (ok: bool)
    requires fs.Logged()
    modifies fs
    ensures fs.Logged()
    ensures SameOutside(fs.files, old(fs.files), DbFiles(bak))
    ensures Recorded(old(fs.history), fs.history, old(fs.files), DbFiles(bak))
    ensures old(fs.history) <= fs.history && old(fs.operations) <= fs.operations
    ensures forall k :: |old(fs.history)| <= k < |fs.history| ==>
      bak !in fs.history[k] || fs.history[k] == old(fs.files)
    ensures ok ==> fs.files == old(fs.files) - DbFiles(bak)
    ensures !ok ==> SomeFails(fs.fails, old(fs.operations), fs.operations)
  {
    var paths := [bak, WalOf(bak), ShmOf(bak)];
    for i := 0 to 3
      invariant fs.Logged() && old(fs.history) <= fs.history && old(fs.operations) <= fs.operations
      invariant i > 0 ==> bak !in fs.files
      invariant i == 0 ==> fs.files == old(fs.files)
      invariant forall k :: |old(fs.history)| <= k < |fs.history| ==>
        bak !in fs.history[k] || fs.history[k] == old(fs.files)
      invariant SameOutside(fs.files, old(fs.files), DbFiles(bak))
      invariant Recorded(old(fs.history), fs.history, old(fs.files), DbFiles(bak))
      invariant forall k :: 0 <= k < i ==> paths[k] !in fs.files
    {
      var present := fs.Exists(paths[i]);
      if present {
        var outcome := fs.Remove(paths[i]);
        if !outcome.Removed? {
          assert fs.fails(fs.operations - 1);
          return false;
        }
      }
    }
    assert paths[0] !in fs.files && paths[1] !in fs.files && paths[2] !in fs.files;
    assert fs.files - DbFiles(bak) == fs.files;
    ok := true;
  }

  /**
   SQLite's online backup: the destination receives what the source logically contains. It opens
   the destination as a database, so pages of an earlier file there survive the copy, and a log
   beside it stays where it is. Until it is over the destination is torn.
   */
  method OnlineBackup(fs: FileSystem, db: Path, dst: Path) returns (ok: bool)
    modifies fs`files, fs`operations, fs`history
    ensures fs.Logged()
    ensures SameOutside(fs.files, old(fs.files), {dst})
    ensures Recorded(old(fs.history), fs.history, old(fs.files), {dst})
    ensures ok <==> Logical(old(fs.files), db).Some? && !fs.fails(old(fs.operations))
    ensures fs.operations == old(fs.operations) + 1
    ensures ok && dst !in old(fs.files) ==> fs.files == old(fs.files)[dst := Main(Logical(old(fs.files), db).value)]
    ensures ok ==> |fs.history| == |old(fs.history)| + 2 && TornAt(fs.history[|old(fs.history)|], dst)
    ensures !ok ==> fs.files == old(fs.files) || TornAt(fs.files, dst)
  {
    var source := Logical(fs.files, db);
    var stale: Pages := if dst in fs.files && fs.files[dst].Main? then fs.files[dst].pages else map[];
    ok := source.Some? && !fs.fails(fs.operations);
    fs.operations := fs.operations + 1;
    var touched: bool := *;
    if !ok && !touched {
      fs.history := fs.history + [fs.files];
      return;
    }
    var torn: nat := *;
    ghost var before := fs.files;
    fs.files := fs.files[dst := Junk(torn)];
    fs.history := fs.history + [fs.files];
    if ok {
      fs.files := fs.files[dst := Main(stale + source.value)];
      assert dst !in before ==> stale + source.value == source.value && fs.files == before[dst := Main(source.value)];
      fs.history := fs.history + [fs.files];
    }
  }

  /** One of the recorded states from `from` up to `to` has no snapshot file. */
  ghost predicate Cleared(history: seq<Disk>, from: nat, to: nat, bak: Path)
    requires to <= |history|
  {
    exists k: nat :: from <= k < to && bak !in history[k]
  }

  /** The recorded states of a backup: only snapshot files change, and none before the earlier snapshot is gone. */
  ghost predicate Preparing(history: seq<Disk>, origin: nat, bak: Path) {
    && origin < |history|
    && forall k :: origin <= k < |history| ==>
         && SameOutside(history[k], history[origin], DbFiles(bak))
         && (history[k] == history[origin] || Cleared(history, origin, k + 1, bak))
  }

  method BackupDatabase(fs: FileSystem, db: Path, bak: Path) returns (ok: bool)
    requires fs.Logged() && Separate(db, bak)
    modifies fs
    ensures fs.Logged()
    ensures SameOutside(fs.files, old(fs.files), DbFiles(bak))
    ensures old(fs.operations) <= fs.operations
    ensures ok ==> Logical(old(fs.files), db).Some? && Cleared(fs.history, |old(fs.history)| - 1, |fs.history|, bak)
    ensures !ok ==> Logical(old(fs.files), db).None? || SomeFails(fs.fails, old(fs.operations), fs.operations)
    ensures old(fs.history) <= fs.history && Preparing(fs.history, |old(fs.history)| - 1, bak)
    ensures ok ==> bak in fs.files && fs.files[bak] == Main(Logical(old(fs.files), db).value)
                   && WalOf(bak) !in fs.files && ShmOf(bak) !in fs.files
  {
    ok := RemoveBackupFiles(fs, bak);
    if !ok {
      return;
    }
    assert bak !in fs.history[|fs.history| - 1];
    assert bak in DbFiles(bak) && WalOf(bak) in DbFiles(bak) && ShmOf(bak) in DbFiles(bak);
    ghost var cleared, operations, length := fs.files, fs.operations, |fs.history|;
    ok := OnlineBackup(fs, db, bak);
    assert !ok && Logical(cleared, db).Some? ==> fs.fails(operations);
    assert bak !in fs.history[length - 1];
    forall k | |old(fs.history)| <= k < |fs.history| ensures SameOutside(fs.history[k], old(fs.files), DbFiles(bak)) {
      if SameOutside(fs.history[k], cleared, {bak}) {
        SameOutsideWidens(fs.history[k], cleared, old(fs.files), {bak}, DbFiles(bak));
      }
    }
  }

  lemma SameOutsideWidens(a: Disk, b: Disk, c: Disk, narrow: set<Path>, wide: set<Path>)
    requires narrow <= wide && SameOutside(a, b, narrow) && SameOutside(b, c, wide)
    ensures SameOutside(a, c, wide)
  {
    assert a - wide == (a - narrow) - wide;
    assert b - wide == (b - narrow) - wide;
  }

  /** Drop stale sidecars, then copy the snapshot over the main file. */
  method RestoreDatabase(fs: FileSystem, bak: Path, db: Path) returns (ok: bool)
    requires fs.Logged() && Separate(db, bak)
    modifies fs
    ensures fs.Logged()
    ensures SameOutside(fs.files, old(fs.files), DbFiles(db))
    ensures Recorded(old(fs.history), fs.history, old(fs.files), DbFiles(db))
    ensures old(fs.operations) <= fs.operations
    ensures !ok ==> bak !in old(fs.files) || SomeFails(fs.fails, old(fs.operations), fs.operations)
    ensures ok ==> bak in old(fs.files) && db in fs.files && fs.files[db] == old(fs.files)[bak]
                   && WalOf(db) !in fs.files && ShmOf(db) !in fs.files
    ensures !ok ==> TornAt(fs.files, db) || SameAt(fs.files, old(fs.files), db)
  {
    var sidecars := [WalOf(db), ShmOf(db)];
    for i := 0 to 2
      invariant fs.Logged() && old(fs.operations) <= fs.operations
      invariant SameOutside(fs.files, old(fs.files), DbFiles(db))
      invariant Recorded(old(fs.history), fs.history, old(fs.files), DbFiles(db))
      invariant forall k :: 0 <= k < i ==> sidecars[k] !in fs.files
      invariant SameAt(fs.files, old(fs.files), db)
    {
      var present := fs.Exists(sidecars[i]);
      if present {
        var outcome := fs.Remove(sidecars[i]);
        if !outcome.Removed? {
          assert fs.fails(fs.operations - 1);
          return false;
        }
      }
    }
    assert sidecars[0] !in fs.files && sidecars[1] !in fs.files;
    LogicalFrame(fs.files, old(fs.files), DbFiles(db), bak);
    assert db in DbFiles(db) && bak in DbFiles(bak) && db != bak;
    ghost var cleared := fs.files;
    ok := fs.Copy(bak, db);
    assert !ok && bak in cleared ==> fs.fails(fs.operations - 1);
    forall k | |old(fs.history)| <= k < |fs.history| ensures SameOutside(fs.history[k], old(fs.files), DbFiles(db)) {
      if SameOutside(fs.history[k], cleared, {db}) {
        SameOutsideWidens(fs.history[k], cleared, old(fs.files), {db}, DbFiles(db));
      }
    }
  }

  /** In the recorded states from `from` up to `to` there is a snapshot that reads as given. */
  ghost predicate Snapshotted(history: seq<Disk>, from: nat, to: nat, contents: Option<Pages>, bak: Path) {
    && from <= to <= |history|
    && forall k :: from <= k < to ==> bak in history[k] && Logical(history[k], bak) == contents
  }

  method RunWithExistingBackup(fs: FileSystem, db: Path, bak: Path, work: Work) returns (outcome: Outcome)
    requires fs.Logged() && Separate(db, bak) && OnlyDatabase(work, db)
    requires Logical(fs.files, db).Some?
    requires bak in fs.files && fs.files[bak] == Main(Logical(fs.files, db).value)
    requires WalOf(bak) !in fs.files
    modifies fs
    ensures fs.Logged() && old(fs.history) <= fs.history
    ensures outcome.Succeeded? <==> work.ok
    ensures outcome.Succeeded? ==> old(fs.history) < fs.history
    ensures !outcome.BackupFailed?
    ensures outcome.RestoreFailed? ==> SomeFails(fs.fails, old(fs.operations), fs.operations)
    ensures old(fs.operations) <= fs.operations
    ensures outcome.Succeeded? ==> Untouched(fs.files, AllApplied(old(fs.files), work.writes), db)
    ensures outcome.Succeeded? ==> fs.operations > 0 && (bak in fs.files <==> fs.fails(fs.operations - 1))
                                   && (bak in fs.files ==> Logical(fs.files, bak) == Logical(old(fs.files), db))
    ensures outcome.WorkFailed? ==> Logical(fs.files, db) == Logical(old(fs.files), db)
                                    && WalOf(db) !in fs.files && ShmOf(db) !in fs.files
    ensures !outcome.Succeeded? ==> Logical(fs.files, bak) == Logical(old(fs.files), db)
    ensures outcome.RestoreFailed? ==>
      TornAt(fs.files, db) || SameAt(fs.files, AllApplied(AllApplied(old(fs.files), work.writes), work.closing), db)
    ensures SameOutside(fs.files, old(fs.files), DbFiles(db) + DbFiles(bak))
    ensures var last := if outcome.Succeeded? then |fs.history| - 1 else |fs.history|;
            Snapshotted(fs.history, |old(fs.history)|, last, Logical(old(fs.files), db), bak)
  {
    ghost var start := fs.files;
    assert Logical(start, bak) == Logical(start, db);
    fs.Perform(work.writes, DbFiles(db));
    ghost var worked := fs.files;
    BackupSurvives(fs.history, |old(fs.history)|, start, db, bak);
    LogicalFrame(worked, start, DbFiles(db), bak);
    if work.ok {
      var removal := fs.Remove(bak);
      SameOutsideWidens(worked, start, start, DbFiles(db), DbFiles(db) + DbFiles(bak));
      assert SameOutside(fs.files, worked, {bak});
      assert {bak} !! DbFiles(db);
      return Succeeded;
    }
    fs.Perform(work.closing, DbFiles(db));
    ghost var closed := fs.files;
    LogicalFrame(closed, worked, DbFiles(db), bak);
    var ok := RestoreDatabase(fs, bak, db);
    assert forall k :: |old(fs.history)| <= k < |fs.history| ==> SameOutside(fs.history[k], start, DbFiles(db));
    BackupSurvives(fs.history, |old(fs.history)|, start, db, bak);
    SameOutsideWidens(fs.files, start, start, DbFiles(db), DbFiles(db) + DbFiles(bak));
    outcome := if ok then WorkFailed else RestoreFailed;
  }

  lemma BackupSurvives(history: seq<Disk>, from: nat, start: Disk, db: Path, bak: Path)
    requires Separate(db, bak)
    requires forall k :: from <= k < |history| ==> SameOutside(history[k], start, DbFiles(db))
    requires bak in start
    ensures forall k :: from <= k < |history| ==> bak in history[k] && Logical(history[k], bak) == Logical(start, bak)
  {
    assert bak in DbFiles(bak);
    forall k | from <= k < |history| ensures bak in history[k] && Logical(history[k], bak) == Logical(start, bak) {
      LogicalFrame(history[k], start, DbFiles(db), bak);
    }
  }

  /**
   The disks one call passes through before it is over. Up to `m` the database reads as it did when
   the call began, and the earlier snapshot is untouched until it is gone; from `m`, after that, on
   there is a snapshot that reads as the database did.
   */
  ghost predicate PassesThrough(trace: seq<Disk>, m: nat, db: Path, bak: Path) {
    && 0 < m <= |trace|
    && (forall k :: 0 <= k < m ==> Logical(trace[k], db) == Logical(trace[0], db))
    && (forall k :: m <= k < |trace| ==> bak in trace[k] && Logical(trace[k], bak) == Logical(trace[0], db))
    && (forall k :: 0 <= k < m ==> Untouched(trace[k], trace[0], bak) || Cleared(trace, 0, k + 1, bak))
    && (m < |trace| ==> Cleared(trace, 0, m, bak))
  }

  ghost predicate CallTrace(trace: seq<Disk>, db: Path, bak: Path) {
    exists m: nat :: PassesThrough(trace, m, db, bak)
  }

  /** The recorded states of a call, from its start up to `last`: a crash in any of them loses nothing. */
  ghost predicate CrashSafe(history: seq<Disk>, origin: nat, last: nat, db: Path, bak: Path) {
    && origin < last <= |history|
    && CallTrace(history[origin..last], db, bak)
    && forall k :: origin <= k < last ==> Recoverable(history[k], history[origin], db, bak)
  }

  /**
   `run_with_backup`, for any contents of the database, its sidecars and stale backup files, any
   work confined to the database files, and any pattern of file-system failures.
   On success the work's result stands, and the snapshot is there only if its removal failed. If the
   work fails and the restore goes through, the database reads as before the call, with no sidecar
   left, and the snapshot is kept. The backup and the restore fail only if an operation did. Whatever
   happens, a crash at any moment before the call is over finds the database or its snapshot reading
   as the database did before the call.
   */
  method RunWithBackup(fs: FileSystem, db: Path, bak: Path, work: Work) returns (outcome: Outcome)
    requires fs.Logged() && Separate(db, bak) && OnlyDatabase(work, db)
    modifies fs
    ensures fs.Logged() && old(fs.history) <= fs.history && old(fs.operations) <= fs.operations
    ensures !outcome.BackupFailed? ==> (outcome.Succeeded? <==> work.ok)
    ensures outcome.BackupFailed? ==>
      Logical(old(fs.files), db).None? || SomeFails(fs.fails, old(fs.operations), fs.operations)
    ensures outcome.RestoreFailed? ==> SomeFails(fs.fails, old(fs.operations), fs.operations)
    ensures outcome.Succeeded? ==> Untouched(fs.files, AllApplied(old(fs.files), work.writes), db)
    ensures outcome.Succeeded? ==> fs.operations > 0 && (bak in fs.files <==> fs.fails(fs.operations - 1))
    ensures outcome.WorkFailed? ==> Logical(fs.files, db) == Logical(old(fs.files), db)
                                    && WalOf(db) !in fs.files && ShmOf(db) !in fs.files
    ensures outcome.BackupFailed? ==> Logical(fs.files, db) == Logical(old(fs.files), db)
    ensures !outcome.BackupFailed? && bak in fs.files ==> Logical(fs.files, bak) == Logical(old(fs.files), db)
    ensures outcome.WorkFailed? || outcome.RestoreFailed? ==> bak in fs.files
    ensures SameOutside(fs.files, old(fs.files), DbFiles(db) + DbFiles(bak))
    ensures var last := if outcome.Succeeded? then |fs.history| - 1 else |fs.history|;
            CrashSafe(fs.history, |old(fs.history)| - 1, last, db, bak)
  {
    ghost var start, origin := fs.files, |fs.history| - 1;
    var ok := BackupDatabase(fs, db, bak);
    ghost var snapshot, prepared := fs.files, fs.history;
    LogicalFrame(snapshot, start, DbFiles(bak), db);
    hide Logical, SameOutside, Separate, Cleared, SomeFails, CrashSafe, DbFiles, Preparing, Closing, Snapshotted;
    SameOutsideWidens(snapshot, start, start, DbFiles(bak), DbFiles(db) + DbFiles(bak));
    if !ok {
      CloseConnection(fs, db);
      SameOutsideWidens(fs.files, snapshot, start, DbFiles(db), DbFiles(db) + DbFiles(bak));
      FailedBackupPasses(fs.history, prepared, origin, db, bak);
      return BackupFailed;
    }
    outcome := RunWithExistingBackup(fs, db, bak, work);
    WritesAgree(snapshot, start, work.writes, db);
    BackedUpPasses(fs.history, prepared, origin, if outcome.Succeeded? then |fs.history| - 1 else |fs.history|,
      db, bak);
  }

  lemma FailedBackupPasses(history: seq<Disk>, prepared: seq<Disk>, origin: nat, db: Path, bak: Path)
    requires prepared <= history && Separate(db, bak) && Preparing(prepared, origin, bak)
    requires Closing(history, |prepared|, prepared[|prepared| - 1], db)
    ensures CrashSafe(history, origin, |history|, db, bak)
  {
    var trace := history[origin..|history|];
    forall k | origin <= k < |prepared| ensures Logical(prepared[k], db) == Logical(prepared[origin], db) {
      LogicalFrame(prepared[k], prepared[origin], DbFiles(bak), db);
    }
    forall k | 0 <= k < |trace| ensures Untouched(trace[k], trace[0], bak) || Cleared(trace, 0, k + 1, bak) {
      var n := if origin + k < |prepared| then origin + k else |prepared| - 1;
      if Cleared(prepared, origin, n + 1, bak) {
        ClearedInTrace(history, prepared, origin, n + 1, trace, k + 1, bak);
      } else if n < origin + k {
        LogicalFrame(trace[k], prepared[n], DbFiles(db), bak);
      }
    }
    assert PassesThrough(trace, |trace|, db, bak);
  }

  lemma ClearedInTrace(history: seq<Disk>, prepared: seq<Disk>, origin: nat, to: nat, trace: seq<Disk>, n: nat,
                       bak: Path)
    requires origin < to <= |prepared| && prepared <= history && Cleared(prepared, origin, to, bak)
    requires to <= origin + n && n <= |trace| && origin + |trace| <= |history|
      && trace == history[origin..origin + |trace|]
    ensures Cleared(trace, 0, n, bak)
  {
    var k: nat :| origin <= k < to && bak !in prepared[k];
    assert bak !in trace[k - origin];
  }

  lemma BackedUpPasses(history: seq<Disk>, prepared: seq<Disk>, origin: nat, last: nat, db: Path, bak: Path)
    requires prepared <= history && Separate(db, bak) && Preparing(prepared, origin, bak)
    requires Snapshotted(history, |prepared|, last, Logical(prepared[origin], db), bak)
    requires Cleared(prepared, origin, |prepared|, bak)
    ensures CrashSafe(history, origin, last, db, bak)
  {
    var trace, m := history[origin..last], |prepared| - origin;
    forall k | origin <= k < |prepared| ensures Logical(prepared[k], db) == Logical(prepared[origin], db) {
      LogicalFrame(prepared[k], prepared[origin], DbFiles(bak), db);
    }
    forall k | 0 <= k < m ensures Untouched(trace[k], trace[0], bak) || Cleared(trace, 0, k + 1, bak) {
      if Cleared(prepared, origin, origin + k + 1, bak) {
        ClearedInTrace(history, prepared, origin, origin + k + 1, trace, k + 1, bak);
      }
    }
    ClearedInTrace(history, prepared, origin, |prepared|, trace, m, bak);
    assert PassesThrough(trace, m, db, bak);
  }

  // ---------------------------------------------------------------------------
  // Calls repeated after crashes
  // ---------------------------------------------------------------------------

  /** The contents can be read, from the database or from its snapshot. */
  ghost predicate Readable(disk: Disk, contents: Option<Pages>, db: Path, bak: Path) {
    Logical(disk, db) == contents || (bak in disk && Logical(disk, bak) == contents)
  }

  /** A crash may fall anywhere in a call. */
  lemma CrashCutsTrace(trace: seq<Disk>, n: nat, db: Path, bak: Path)
    requires CallTrace(trace, db, bak) && 0 < n <= |trace|
    ensures CallTrace(trace[..n], db, bak)
  {
    var m: nat :| PassesThrough(trace, m, db, bak);
    var cut, c := trace[..n], if m < n then m else n;
    forall k | 0 <= k < c ensures Untouched(cut[k], cut[0], bak) || Cleared(cut, 0, k + 1, bak) {
      if Cleared(trace, 0, k + 1, bak) { ClearedInTrace(trace, trace, 0, k + 1, cut, k + 1, bak); }
    }
    if m < n { ClearedInTrace(trace, trace, 0, m, cut, m, bak); }
    assert PassesThrough(cut, c, db, bak);
  }

  /**
   Calls one after the other, each but the first starting from what a crash of the one before left.
   Reopening after a crash keeps what the database reads as and does not touch the snapshot.
   */
  ghost predicate CrashedCalls(calls: seq<seq<Disk>>, db: Path, bak: Path) {
    && calls != []
    && (forall i :: 0 <= i < |calls| ==> CallTrace(calls[i], db, bak))
    && (forall i :: 0 < i < |calls| && calls[i] != [] && calls[i - 1] != [] ==>
          Reopens(calls[i - 1][|calls[i - 1]| - 1], calls[i][0], db, bak))
  }

  ghost predicate Reopens(left: Disk, found: Disk, db: Path, bak: Path) {
    Logical(found, db) == Logical(left, db) && Untouched(found, left, bak)
  }

  ghost predicate ReadableThroughout(calls: seq<seq<Disk>>, contents: Option<Pages>, db: Path, bak: Path) {
    forall i, k :: 0 <= i < |calls| && 0 <= k < |calls[i]| ==> Readable(calls[i][k], contents, db, bak)
  }

  /** Whenever a call gets as far as removing the snapshot it finds, the database itself reads as given. */
  ghost predicate ClearsOnlySpares(calls: seq<seq<Disk>>, contents: Option<Pages>, db: Path, bak: Path) {
    forall i :: 0 <= i < |calls| && Cleared(calls[i], 0, |calls[i]|, bak) ==> Logical(calls[i][0], db) == contents
  }

  /**
   Over any number of calls that crash anywhere: the contents the first call found stay readable, in
   the database or its snapshot, if and only if every later call that got as far as clearing the
   snapshot found the database itself still reading as they do. A crash after the database was
   changed, or between dropping its log and copying the snapshot back, is survived by the crash but
   not by the next call.
   */
  lemma ContentsSurviveCrashesIff(calls: seq<seq<Disk>>, contents: Option<Pages>, db: Path, bak: Path)
    requires CrashedCalls(calls, db, bak)
    requires Logical(calls[0][0], db) == contents
    ensures ReadableThroughout(calls, contents, db, bak) <==> ClearsOnlySpares(calls, contents, db, bak)
  {
    if ReadableThroughout(calls, contents, db, bak) {
      forall i | 0 <= i < |calls| && Cleared(calls[i], 0, |calls[i]|, bak)
        ensures Logical(calls[i][0], db) == contents
      {
        ClearedCallNeedsDatabase(calls[i], contents, db, bak);
      }
    }
    if ClearsOnlySpares(calls, contents, db, bak) {
      forall i, k | 0 <= i < |calls| && 0 <= k < |calls[i]| ensures Readable(calls[i][k], contents, db, bak) {
        SparesStayReadable(calls, i, contents, db, bak);
      }
    }
  }

  lemma ClearedCallNeedsDatabase(trace: seq<Disk>, contents: Option<Pages>, db: Path, bak: Path)
    requires CallTrace(trace, db, bak) && Cleared(trace, 0, |trace|, bak)
    requires forall k :: 0 <= k < |trace| ==> Readable(trace[k], contents, db, bak)
    ensures Logical(trace[0], db) == contents
  {
    var m: nat :| PassesThrough(trace, m, db, bak);
    var k: nat :| k < |trace| && bak !in trace[k];
    assert Readable(trace[k], contents, db, bak);
  }

  lemma CallKeepsReadable(trace: seq<Disk>, contents: Option<Pages>, db: Path, bak: Path)
    requires CallTrace(trace, db, bak) && Readable(trace[0], contents, db, bak)
    requires Cleared(trace, 0, |trace|, bak) ==> Logical(trace[0], db) == contents
    ensures forall k :: 0 <= k < |trace| ==> Readable(trace[k], contents, db, bak)
  {
    var m: nat :| PassesThrough(trace, m, db, bak);
    assert bak in DbFiles(bak);
    forall k | 0 <= k < |trace| ensures Readable(trace[k], contents, db, bak) {
      if Logical(trace[0], db) != contents {
        assert !Cleared(trace, 0, k + 1, bak) && !Cleared(trace, 0, m, bak);
        UntouchedReadsSame(trace[k], trace[0], bak);
      }
    }
  }

  lemma {:induction false} SparesStayReadable(calls: seq<seq<Disk>>, i: nat, contents: Option<Pages>, db: Path,
                                              bak: Path)
    requires CrashedCalls(calls, db, bak) && i < |calls|
    requires Logical(calls[0][0], db) == contents && ClearsOnlySpares(calls, contents, db, bak)
    ensures forall k :: 0 <= k < |calls[i]| ==> Readable(calls[i][k], contents, db, bak)
  {
    if i > 0 {
      SparesStayReadable(calls, i - 1, contents, db, bak);
      var left, found := calls[i - 1][|calls[i - 1]| - 1], calls[i][0];
      assert Reopens(left, found, db, bak) && bak in DbFiles(bak);
      UntouchedReadsSame(found, left, bak);
    }
    CallKeepsReadable(calls[i], contents, db, bak);
  }

  /** The same writes leave the same database files on disks that agree on them. */
  lemma {:induction false} WritesAgree(a: Disk, b: Disk, writes: seq<Write>, db: Path)
    requires Untouched(a, b, db)
    ensures Untouched(AllApplied(a, writes), AllApplied(b, writes), db)
  {
    if writes != [] {
      WritesAgree(a, b, writes[..|writes| - 1], db);
    }
  }

  /**
   Dropping the log before the copy is what makes the restore sound: copied over a database whose
   log holds a committed frame, the snapshot alone would read differently from the original.
   */
  lemma StaleLogCorruptsRestore(db: Path, pages: Pages, page: nat, image: nat)
    requires page !in pages || pages[page] != image
    ensures var frames := [Frame(page, image, true)];
            Logical(map[db := Main(pages), WalOf(db) := Wal(frames)], db) != Some(pages)
  {
    var frames := [Frame(page, image, true)];
    assert frames[..0] == [];
    assert Overlaid(pages, frames) == pages[page := image];
    assert db != WalOf(db);
    assert pages[page := image][page] == image;
  }

  // ---------------------------------------------------------------------------
  // Opening the vault database
  // ---------------------------------------------------------------------------

  const SCHEMA_VERSION: nat := 2

  const SCHEMA_PAGE: nat := 0

  /** The version recorded in the database; one without a record of it, or that cannot be read, has none yet. */
  function StoredVersion(contents: Option<Pages>): (version: nat)
    ensures contents.None? ==> version == 0
  {
    if contents.Some? && SCHEMA_PAGE in contents.value then contents.value[SCHEMA_PAGE] else 0
  }

  /** Frames that commit nothing are not read. */
  lemma {:induction false} UncommittedIsIgnored(pages: Pages, frames: seq<Frame>, tail: seq<Frame>)
    requires forall k :: 0 <= k < |tail| ==> !tail[k].commits
    ensures Replay(pages, frames + tail) == Replay(pages, frames)
  {
    if tail == [] {
      assert frames + tail == frames;
    } else {
      var n := |tail| - 1;
      assert (frames + tail)[..|frames| + n] == frames + tail[..n];
      UncommittedIsIgnored(pages, frames, tail[..n]);
    }
  }

  /**
   What a page reads as is the latest image of it up to the last commit, and its image in the main file
   without one.
   */
  lemma {:induction false} OverlaidReadsLatest(pages: Pages, frames: seq<Frame>, page: nat)
    ensures var after := Overlaid(pages, frames);
            if exists k :: IsLatest(frames, page, k)
            then page in after && exists k :: IsLatest(frames, page, k) && after[page] == frames[k].image
            else (page in after <==> page in pages) && (page in after ==> after[page] == pages[page])
  {
    if frames != [] {
      var n := |frames| - 1;
      var front := frames[..n];
      OverlaidReadsLatest(pages, front, page);
      if frames[n].page == page {
        assert IsLatest(frames, page, n);
      } else {
        assert forall k :: IsLatest(frames, page, k) <==> IsLatest(front, page, k);
      }
    }
  }

  predicate IsLatest(frames: seq<Frame>, page: nat, k: int) {
    0 <= k < |frames| && frames[k].page == page && forall j :: k < j < |frames| ==> frames[j].page != page
  }

  /**
   The version a connection reads: the one the last committed write of the schema page recorded,
   whatever was written to other pages since and whatever is uncommitted behind it.
   */
  lemma CommittedVersionIsRead(disk: Disk, db: Path, before: seq<Frame>, after: seq<Frame>, tail: seq<Frame>,
                               version: nat)
    requires db in disk && disk[db].Main?
    requires forall k :: 0 <= k < |after| ==> after[k].page != SCHEMA_PAGE
    requires forall k :: 0 <= k < |tail| ==> !tail[k].commits
    requires after != [] && after[|after| - 1].commits
    requires LogFrames(disk, db) == before + [Frame(SCHEMA_PAGE, version, false)] + after + tail
    ensures StoredVersion(Logical(disk, db)) == version
  {
    var frames := before + [Frame(SCHEMA_PAGE, version, false)] + after;
    UncommittedIsIgnored(disk[db].pages, frames, tail);
    OverlaidReadsLatest(disk[db].pages, frames, SCHEMA_PAGE);
    assert frames[|frames| - 1] == after[|after| - 1];
    assert Replay(disk[db].pages, frames) == Overlaid(disk[db].pages, frames);
    hide Overlaid, Replay;
    assert IsLatest(frames, SCHEMA_PAGE, |before|) by {
      assert forall j :: |before| < j < |frames| ==> frames[j] == after[j - |before| - 1];
    }
    assert forall k :: IsLatest(frames, SCHEMA_PAGE, k) ==> k == |before|;
  }

  /** Without a log the main file's own record is read, and a new or unversioned database has version zero. */
  lemma UnloggedVersionIsRead(disk: Disk, db: Path)
    requires LogFrames(disk, db) == []
    ensures StoredVersion(Logical(disk, db)) ==
            if db in disk && disk[db].Main? && SCHEMA_PAGE in disk[db].pages then disk[db].pages[SCHEMA_PAGE] else 0
  {
  }

  function BackupOf(db: Path): Path { db + ".migration.bak" }

  lemma BackupIsSeparate(db: Path)
    ensures Separate(db, BackupOf(db))
  {
    assert |BackupOf(db)| == |db| + 14;
    assert forall p, q :: p in DbFiles(db) && q in DbFiles(BackupOf(db)) ==> |p| < |q|;
  }

  datatype InitOutcome =
    | Opened | SqliteError | IntegrityCheckFailed | UnsupportedSchemaVersion
    | MigrationFailed(cause: Outcome) | ForeignKeyCheckFailed

  /** What SQLite does while the vault is opened: arbitrary, save that opening preserves the contents. */
  datatype Opening = Opening(opens: bool, writes: seq<Write>, checkPasses: bool, migration: Work, keysHold: bool)

  predicate PreservesContents(disk: Disk, db: Path, opening: Opening) {
    && Within(opening.writes, DbFiles(db))
    && Logical(AllApplied(disk, opening.writes), db) == Logical(disk, db)
    && OnlyDatabase(opening.migration, db)
  }

  /** The snapshot of a finished migration is there only if removing it, the last operation, failed. */
  ghost predicate SnapshotLeft(disk: Disk, bak: Path, contents: Option<Pages>, fails: nat -> bool, operations: nat) {
    && operations > 0 && (bak in disk <==> fails(operations - 1))
    && (bak in disk ==> Logical(disk, bak) == contents)
  }

  /**
   `init_db`. A database newer than this build is never migrated or altered. An error leaves the
   contents as they were, with three exceptions, each pinned down: a failed migration of an
   unversioned database, which has no snapshot; a failed restore, where the snapshot holds the
   contents; and a foreign-key error after a migration, which reports failure on the migrated
   database, whose snapshot is gone unless its removal failed.
   */
  method InitDb(fs: FileSystem, db: Path, opening: Opening) returns (outcome: InitOutcome)
    requires fs.Logged() && PreservesContents(fs.files, db, opening)
    modifies fs
    ensures fs.Logged()
    ensures outcome.SqliteError? <==> !opening.opens
    ensures outcome.IntegrityCheckFailed? <==> opening.opens && db in old(fs.files) && !opening.checkPasses
    ensures var current := StoredVersion(Logical(old(fs.files), db));
            var checked := opening.opens && (db in old(fs.files) ==> opening.checkPasses);
            && (outcome.UnsupportedSchemaVersion? <==> checked && current > SCHEMA_VERSION)
            && (outcome.MigrationFailed? ==> checked && current < SCHEMA_VERSION && !outcome.cause.Succeeded?)
            && (outcome.MigrationFailed? && !outcome.cause.BackupFailed? ==> !opening.migration.ok)
            && (checked && current < SCHEMA_VERSION && !opening.migration.ok ==> outcome.MigrationFailed?)
            && (outcome.MigrationFailed? && current == 0 ==> outcome.cause.WorkFailed?)
            && (outcome.Opened? || outcome.ForeignKeyCheckFailed? ==>
                  checked && current <= SCHEMA_VERSION && (outcome.Opened? <==> opening.keysHold))
    ensures var before, after := Logical(old(fs.files), db), Logical(fs.files, db);
            var migrated :=
              Logical(AllApplied(AllApplied(old(fs.files), opening.writes), opening.migration.writes), db);
            var current := StoredVersion(before);
            match outcome
            case SqliteError => after == before
            case IntegrityCheckFailed => after == before
            case UnsupportedSchemaVersion => after == before
            case MigrationFailed(cause) =>
              && (cause.BackupFailed? || cause.RestoreFailed? ==>
                   SomeFails(fs.fails, old(fs.operations), fs.operations))
              && (current > 0 && (cause.WorkFailed? || cause.BackupFailed?) ==> after == before)
              && (current > 0 && (cause.WorkFailed? || cause.RestoreFailed?) ==>
                    Logical(fs.files, BackupOf(db)) == before)
              && (current == 0 ==> after == migrated)
            case _ =>
              && after == (if current < SCHEMA_VERSION then migrated else before)
              && (0 < current < SCHEMA_VERSION ==>
                   SnapshotLeft(fs.files, BackupOf(db), before, fs.fails, fs.operations))
  {
    hide CrashSafe, Closing, SomeFails, StoredVersion, BackupOf;
    BackupIsSeparate(db);
    var existedBeforeOpen := fs.Exists(db);
    fs.Perform(opening.writes, DbFiles(db));
    ghost var ready := fs.files;
    if !opening.opens {
      CloseConnection(fs, db);
      return SqliteError;
    }
    if existedBeforeOpen && !opening.checkPasses {
      CloseConnection(fs, db);
      return IntegrityCheckFailed;
    }
    var current := StoredVersion(Logical(fs.files, db));
    var needsMigration := current < SCHEMA_VERSION;
    if current > SCHEMA_VERSION {
      CloseConnection(fs, db);
      return UnsupportedSchemaVersion;
    }
    if needsMigration && current > 0 {
      var result := RunWithBackup(fs, db, BackupOf(db), opening.migration);
      if !result.Succeeded? {
        return MigrationFailed(result);
      }
      UntouchedReadsSame(fs.files, AllApplied(ready, opening.migration.writes), db);
    } else if needsMigration {
      fs.Perform(opening.migration.writes, DbFiles(db));
      if !opening.migration.ok {
        CloseConnection(fs, db);
        return MigrationFailed(WorkFailed);
      }
    }
    if !opening.keysHold {
      ghost var checked := fs.files;
      CloseConnection(fs, db);
      LogicalFrame(fs.files, checked, DbFiles(db), BackupOf(db));
      assert BackupOf(db) in DbFiles(BackupOf(db));
      return ForeignKeyCheckFailed;
    }
    outcome := Opened;
  }

  lemma UntouchedReadsSame(a: Disk, b: Disk, db: Path)
    requires Untouched(a, b, db)
    ensures Logical(a, db) == Logical(b, db)
  {
    assert db in DbFiles(db) && WalOf(db) in DbFiles(db);
  }
}
