/**
 The file system as the recovery code sees it: a map from paths to contents, changed one operation
 at a time. Any operation may fail. `history` records every state the disk passes through, so that
 a contract can speak about a crash between two operations.
 */
module FileStore {
  type Path = string

  /** One WAL frame: a page image, marked if it commits the frames since the previous commit. */
  datatype Frame = Frame(page: nat, image: nat, commits: bool)

  datatype Content =
    | Main(pages: map<nat, nat>)
    | Wal(frames: seq<Frame>)
    | Junk(tag: nat)            // anything else: a SHM index, a torn copy, a foreign file

  type Disk = map<Path, Content>

  /** Whether one of the operations numbered from `from` up to `to` fails. */
  predicate SomeFails(fails: nat -> bool, from: nat, to: nat) {
    exists k: nat :: from <= k < to && fails(k)
  }

  datatype Removal = Removed | NotFound | RemoveFailed

  /** A write by someone else, such as an open database connection: `None` deletes the file. */
  datatype Write = Write(path: Path, content: Content) | Delete(path: Path)

  function Applied(disk: Disk, w: Write): Disk {
    match w
    case Write(path, content) => disk[path := content]
    case Delete(path) => disk - {path}
  }

  function AllApplied(disk: Disk, writes: seq<Write>): Disk {
    if writes == [] then disk
    else Applied(AllApplied(disk, writes[..|writes| - 1]), writes[|writes| - 1])
  }

  predicate Within(writes: seq<Write>, paths: set<Path>) {
    forall w | w in writes :: w.path in paths
  }

  /** Two disks hold the same files outside `paths`. */
  predicate SameOutside(a: Disk, b: Disk, paths: set<Path>) {
    a - paths == b - paths
  }

  /** The file at this path is no readable database. */
  predicate TornAt(disk: Disk, p: Path) {
    p in disk && disk[p].Junk?
  }

  predicate SameAt(a: Disk, b: Disk, p: Path) {
    (p in a <==> p in b) && (p in a ==> a[p] == b[p])
  }

  lemma {:induction false} WritesStayWithin(disk: Disk, writes: seq<Write>, paths: set<Path>)
    requires Within(writes, paths)
    ensures SameOutside(AllApplied(disk, writes), disk, paths)
  {
    if writes != [] {
      var n := |writes| - 1;
      assert writes[n] in writes;
      assert Within(writes[..n], paths);
      WritesStayWithin(disk, writes[..n], paths);
    }
  }

  class FileSystem {
    /** The environment: whether the n-th operation that may fail does fail. */
    const fails: nat -> bool
    var files: Disk
    /** How many operations that may fail were performed. */
    var operations: nat
    ghost var history: seq<Disk>
    ghost var removals: seq<Path>   // every path a removal was attempted on

    /** The latest recorded state is the current one: no change goes unrecorded. */
    ghost predicate Logged()
      reads this
    {
      history != [] && history[|history| - 1] == files
    }

    constructor (files: Disk, fails: nat -> bool)
      ensures Logged()
      ensures this.fails == fails && this.files == files && operations == 0 && history == [files] && removals == []
    {
      this.fails, this.files, operations, history, removals := fails, files, 0, [files], [];
    }

    method Exists(path: Path) returns (present: bool)
      ensures present <==> path in files
    {
      present := path in files;
    }

    /** `std::fs::remove_file` */
    method Remove(path: Path) returns (outcome: Removal)
      modifies this
      ensures Logged()
      ensures outcome
        == if fails(old(operations)) then RemoveFailed else if path in old(files) then Removed else NotFound
      ensures files == if outcome.Removed? then old(files) - {path} else old(files)
      ensures operations == old(operations) + 1
      ensures history == old(history) + [files]
      ensures removals == old(removals) + [path]
    {
      if fails(operations) {
        outcome := RemoveFailed;
      } else if path in files {
        files := files - {path};
        outcome := Removed;
      } else {
        outcome := NotFound;
      }
      operations := operations + 1;
      history := history + [files];
      removals := removals + [path];
    }

    /** `std::fs::copy`: the destination is torn until the copy completes, and may stay torn if it fails. */
    method Copy(src: Path, dst: Path) returns (ok: bool)
      requires src != dst
      modifies this`files, this`operations, this`history
      ensures Logged()
      ensures ok <==> src in old(files) && !fails(old(operations))
      ensures ok ==> files == old(files)[dst := old(files)[src]]
      ensures ok ==> |history| == |old(history)| + 2 && TornAt(history[|old(history)|], dst)
      ensures !ok ==> files == old(files) || TornAt(files, dst)
      ensures SameOutside(files, old(files), {dst})
      ensures Recorded(old(history), history, old(files), {dst})
      ensures operations == old(operations) + 1
    {
      ok := src in files && !fails(operations);
      operations := operations + 1;
      var touched: bool := *;
      if !ok && !touched {
        history := history + [files];
        return;
      }
      var torn: nat := *;
      ghost var before := files;
      files := files[dst := Junk(torn)];
      history := history + [files];
      if ok {
        files := files[dst := files[src]];
        assert files == before[dst := before[src]];
        history := history + [files];
      }
    }

    /** Writes by a database connection to its own files. */
    method Perform(writes: seq<Write>, ghost paths: set<Path>)
      requires Within(writes, paths) && Logged()
      modifies this`files, this`history
      ensures Logged()
      ensures files == AllApplied(old(files), writes)
      ensures SameOutside(files, old(files), paths)
      ensures Recorded(old(history), history, old(files), paths)
      ensures |history| == |old(history)| + |writes|
      ensures forall i :: 0 < i <= |writes| ==> history[|old(history)| + i - 1] == AllApplied(old(files), writes[..i])
    {
      assert writes[..|writes|] == writes;
      for i := 0 to |writes|
        invariant Logged() && |history| == |old(history)| + i
        invariant forall j :: 0 < j <= i ==> history[|old(history)| + j - 1] == AllApplied(old(files), writes[..j])
        invariant files == AllApplied(old(files), writes[..i])
        invariant SameOutside(files, old(files), paths)
        invariant Recorded(old(history), history, old(files), paths)
      {
        assert writes[..i + 1][..i] == writes[..i];
        assert writes[i] in writes;
        files := Applied(files, writes[i]);
        history := history + [files];
      }
    }
  }

  /** The states added to a history since `before` differ from `disk` only at the given paths. */
  predicate Recorded(before: seq<Disk>, after: seq<Disk>, disk: Disk, paths: set<Path>) {
    && before <= after
    && forall k :: |before| <= k < |after| ==> SameOutside(after[k], disk, paths)
  }
}
