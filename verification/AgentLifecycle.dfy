/**
 Any number of `ok agent` processes sharing one socket path, interleaved step by step: take the
 data directory's lock, unlock, prepare the socket and pidfile, serve, clean up, release. Every
 file operation may fail where the code tolerates or reports a failure, and a process may die at
 any point, which releases its lock and leaves its files behind.
 */
module AgentLifecycle {
  import opened Prelude

  type Pid = nat
  type Dir = nat

  datatype Stage =
    | Idle          // not started
    | Locked        // holds the lock; unlocking the vault and loading identities
    | Unlinked      // stale socket removed
    | Announced     // pidfile written
    | Bound         // socket bound, mode not yet set
    | Serving
    | Cleaning      // shutdown decided; socket to remove
    | SocketGone    // pidfile to remove
    | Failing       // startup failed after the pidfile was written; pidfile to remove
    | Leaving       // nothing left to do but release the lock
    | Gone

  /** A pidfile may be left truncated by a failed write. */
  datatype PidFile = Holds(pid: Pid) | Torn

  datatype State = State(
    locks: map<Dir, Pid>,
    socket: Option<Pid>,        // the process that bound the socket file
    pidfile: Option<PidFile>,
    stage: map<Pid, Stage>)

  datatype Event =
    | Acquire(pid: Pid)
    | GiveUp(pid: Pid)                        // unlocking, loading or creating the socket directory fails
    | UnlinkSocket(pid: Pid, removed: bool)
    | WritePidFile(pid: Pid, outcome: WriteOutcome)
    | Bind(pid: Pid, ok: bool)
    | SetMode(pid: Pid, ok: bool)
    | Stop(pid: Pid)                          // signal, idle lock or accept error
    | RemoveSocket(pid: Pid, removed: bool)
    | RemovePidFile(pid: Pid, removed: bool)
    | Release(pid: Pid)
    | Die(pid: Pid)

  datatype WriteOutcome = Written | Untouched | TornWrite

  function Init(): State { State(map[], None, None, map[]) }

  function StageOf(s: State, pid: Pid): Stage {
    if pid in s.stage then s.stage[pid] else Idle
  }

  function At(s: State, pid: Pid, stage: Stage): State {
    s.(stage := s.stage[pid := stage])
  }

  /** One step; an event that is not possible in the state leaves it unchanged. */
  function Next(dirOf: Pid -> Dir, s: State, e: Event): State {
    var stage := StageOf(s, e.pid);
    match e
    case Acquire(p) =>
      if stage != Idle then s
      else if dirOf(p) in s.locks then At(s, p, Gone)             // already running
      else At(s.(locks := s.locks[dirOf(p) := p]), p, Locked)
    case GiveUp(p) => if stage == Locked then At(s, p, Leaving) else s
    case UnlinkSocket(p, removed) =>
      if stage != Locked then s
      else At(if removed then s.(socket := None) else s, p, Unlinked)
    case WritePidFile(p, outcome) =>
      if stage != Unlinked then s
      else (match outcome
        case Written => At(s.(pidfile := Some(Holds(p))), p, Announced)
        case Untouched => At(s, p, Leaving)
        case TornWrite => At(s.(pidfile := Some(Torn)), p, Leaving))
    case Bind(p, ok) =>
      if stage != Announced then s
      else if ok && s.socket.None? then At(s.(socket := Some(p)), p, Bound)
      else At(s, p, Failing)                                      // includes a path still in use
    case SetMode(p, ok) =>
      if stage != Bound then s else At(s, p, if ok then Serving else Failing)
    case Stop(p) => if stage == Serving then At(s, p, Cleaning) else s
    case RemoveSocket(p, removed) =>
      if stage != Cleaning then s
      else At(if removed then s.(socket := None) else s, p, SocketGone)
    case RemovePidFile(p, removed) =>
      if !stage.SocketGone? && !stage.Failing? then s
      else At(if removed then s.(pidfile := None) else s, p, Leaving)
    case Release(p) => if stage == Leaving then Quit(dirOf, s, p) else s
    case Die(p) => if !Active(stage) then s else Quit(dirOf, s, p)
  }

  function Quit(dirOf: Pid -> Dir, s: State, p: Pid): State {
    At(s.(locks := s.locks - {dirOf(p)}), p, Gone)
  }

  function Run(dirOf: Pid -> Dir, run: seq<Event>): State {
    if run == [] then Init() else Next(dirOf, Run(dirOf, run[..|run| - 1]), run[|run| - 1])
  }

  /** The process is alive past acquiring the lock, up to and including its cleanup. */
  predicate Active(stage: Stage) { !stage.Idle? && !stage.Gone? }

  /** From writing the pidfile until the process itself removes it. */
  predicate OwnsPidFile(stage: Stage) {
    stage.Announced? || stage.Bound? || stage.Serving? || stage.Cleaning? || stage.SocketGone? || stage.Failing?
  }

  /** From binding the socket until the process itself removes it. */
  predicate OwnsSocket(stage: Stage) { stage.Bound? || stage.Serving? || stage.Cleaning? }

  ghost predicate Exclusive(dirOf: Pid -> Dir, s: State) {
    && (forall p :: Active(StageOf(s, p)) <==> dirOf(p) in s.locks && s.locks[dirOf(p)] == p)
    && (forall p: Pid :: OwnsPidFile(StageOf(s, p)) ==> s.pidfile == Some(Holds(p)))
    && (forall p: Pid :: OwnsSocket(StageOf(s, p)) ==> s.socket == Some(p))
  }

  ghost predicate OneDirectory(dirOf: Pid -> Dir) {
    forall p, q :: dirOf(p) == dirOf(q)
  }

  /**
   Over every interleaving of any number of agents on one data directory: a process that is
   starting, serving or cleaning up is the sole lock holder; from writing its pidfile to removing
   it, the pidfile holds its pid; from binding to cleanup, the socket is its own.
   */
  lemma {:induction false} AgentsStayExclusive(dirOf: Pid -> Dir, run: seq<Event>)
    requires OneDirectory(dirOf)
    ensures Exclusive(dirOf, Run(dirOf, run))
    ensures forall p, q :: Active(StageOf(Run(dirOf, run), p)) && Active(StageOf(Run(dirOf, run), q)) ==> p == q
  {
    if run != [] {
      var front, e := run[..|run| - 1], run[|run| - 1];
      AgentsStayExclusive(dirOf, front);
      StepKeepsExclusive(dirOf, Run(dirOf, front), e);
    }
  }

  lemma StepKeepsExclusive(dirOf: Pid -> Dir, s: State, e: Event)
    requires OneDirectory(dirOf) && Exclusive(dirOf, s)
    ensures Exclusive(dirOf, Next(dirOf, s, e))
  {
    if Active(StageOf(s, e.pid)) || (e.Acquire? && dirOf(e.pid) !in s.locks) {
      forall q | q != e.pid ensures !Active(StageOf(s, q)) {
        assert dirOf(q) == dirOf(e.pid);
      }
      SoleActorKeepsExclusive(dirOf, s, e);
    } else {
      var t := Next(dirOf, s, e);
      assert t == s || t == At(s, e.pid, Gone);
      assert forall q :: Active(StageOf(t, q)) == Active(StageOf(s, q));
      assert forall q: Pid | Active(StageOf(s, q)) :: StageOf(t, q) == StageOf(s, q);
    }
  }

  /** While every other process is idle or gone, only the acting process's own stage needs following. */
  lemma SoleActorKeepsExclusive(dirOf: Pid -> Dir, s: State, e: Event)
    requires OneDirectory(dirOf) && Exclusive(dirOf, s)
    requires forall q: Pid | q != e.pid :: !Active(StageOf(s, q))
    requires Active(StageOf(s, e.pid)) || (e.Acquire? && dirOf(e.pid) !in s.locks)
    ensures Exclusive(dirOf, Next(dirOf, s, e))
  {
    var t := Next(dirOf, s, e);
    var p := e.pid;
    assert Active(StageOf(t, p)) <==> dirOf(p) in t.locks && t.locks[dirOf(p)] == p;
    assert OwnsPidFile(StageOf(t, p)) ==> t.pidfile == Some(Holds(p));
    assert OwnsSocket(StageOf(t, p)) ==> t.socket == Some(p);
    forall q | q != p ensures !Active(StageOf(t, q)) && !(dirOf(q) in t.locks && t.locks[dirOf(q)] == q) {
      assert dirOf(q) == dirOf(p) && StageOf(t, q) == StageOf(s, q);
    }
  }

  /** The step takes away a file that another live process put there. */
  predicate StealsFrom(dirOf: Pid -> Dir, s: State, e: Event, victim: Pid) {
    && victim != e.pid && Active(StageOf(s, victim))
    && var t := Next(dirOf, s, e);
       || (s.pidfile == Some(Holds(victim)) && t.pidfile != s.pidfile)
       || (s.socket == Some(victim) && t.socket != s.socket)
  }

  /** No agent's startup or cleanup removes or replaces the socket or pidfile of another live agent. */
  lemma NoAgentStealsFiles(dirOf: Pid -> Dir, run: seq<Event>, e: Event, victim: Pid)
    requires OneDirectory(dirOf)
    ensures !StealsFrom(dirOf, Run(dirOf, run), e, victim)
  {
    AgentsStayExclusive(dirOf, run);
    var s := Run(dirOf, run);
    assert Active(StageOf(s, e.pid)) && Active(StageOf(s, victim)) ==> e.pid == victim;
  }

  /** Over any run: a serving agent told to stop whose removals succeed ends with nothing of it left behind. */
  lemma CleanStopLeavesNothing(dirOf: Pid -> Dir, run: seq<Event>, p: Pid)
    requires OneDirectory(dirOf) && StageOf(Run(dirOf, run), p) == Serving
    ensures var t := Run(dirOf, run + [Stop(p), RemoveSocket(p, true), RemovePidFile(p, true), Release(p)]);
            && StageOf(t, p) == Gone && t.socket == None && t.pidfile == None
            && (forall q :: dirOf(q) !in t.locks) && (forall q :: !Active(StageOf(t, q)))
  {
    AgentsStayExclusive(dirOf, run);
    StopSteps(dirOf, Run(dirOf, run), p);
    var full, n := run + [Stop(p), RemoveSocket(p, true), RemovePidFile(p, true), Release(p)], |run|;
    assert full[..n] == run && full[..n + 4] == full;
    AgentsStayExclusive(dirOf, full);
    hide Run, Next, StageOf;
    Steps(dirOf, full, n);
    Steps(dirOf, full, n + 1);
    Steps(dirOf, full, n + 2);
    Steps(dirOf, full, n + 3);
    var t := Run(dirOf, full);
    forall q ensures dirOf(q) !in t.locks && !Active(StageOf(t, q)) {
      assert dirOf(q) == dirOf(p);
    }
  }

  lemma StopSteps(dirOf: Pid -> Dir, s: State, p: Pid)
    requires StageOf(s, p) == Serving
    ensures var t := Next(dirOf, Next(dirOf, Next(dirOf, Next(dirOf, s, Stop(p)),
                     RemoveSocket(p, true)), RemovePidFile(p, true)), Release(p));
            t.socket == None && t.pidfile == None && StageOf(t, p) == Gone && t.locks == s.locks - {dirOf(p)}
  {
  }

  function Startup(p: Pid): seq<Event> {
    [Acquire(p), UnlinkSocket(p, true), WritePidFile(p, Written), Bind(p, true), SetMode(p, true)]
  }

  /** An agent whose directory's lock is free reaches serving, whatever files it finds. */
  lemma StartupReachesServing(dirOf: Pid -> Dir, run: seq<Event>, p: Pid)
    requires StageOf(Run(dirOf, run), p) == Idle && dirOf(p) !in Run(dirOf, run).locks
    ensures var s, t := Run(dirOf, run), Run(dirOf, run + Startup(p));
            && t.locks == s.locks[dirOf(p) := p] && t.socket == Some(p) && t.pidfile == Some(Holds(p))
            && t.stage == s.stage[p := Serving]
  {
    var n, full := |run|, run + Startup(p);
    assert full[..n] == run && full[..n + 5] == full;
    StartupSteps(dirOf, Run(dirOf, run), p);
    hide Run, Next, StageOf;
    Steps(dirOf, full, n);
    Steps(dirOf, full, n + 1);
    Steps(dirOf, full, n + 2);
    Steps(dirOf, full, n + 3);
    Steps(dirOf, full, n + 4);
  }

  lemma StartupSteps(dirOf: Pid -> Dir, s: State, p: Pid)
    requires StageOf(s, p) == Idle && dirOf(p) !in s.locks
    ensures var s1 := Next(dirOf, s, Acquire(p));
            var s2 := Next(dirOf, s1, UnlinkSocket(p, true));
            var s3 := Next(dirOf, s2, WritePidFile(p, Written));
            var s4 := Next(dirOf, s3, Bind(p, true));
            Next(dirOf, s4, SetMode(p, true))
            == State(s.locks[dirOf(p) := p], Some(p), Some(Holds(p)), s.stage[p := Serving])
  {
  }

  /**
   The lock is what protects the files. For any two agents with different data directories: both can
   serve at once, with the first one's pidfile and socket replaced by the second's.
   */
  lemma TwoDirectoriesCollide(dirOf: Pid -> Dir, p: Pid, q: Pid) returns (run: seq<Event>)
    requires dirOf(p) != dirOf(q)
    ensures var s := Run(dirOf, run);
            && StageOf(s, p) == Serving && StageOf(s, q) == Serving
            && s.pidfile == Some(Holds(q)) && s.socket == Some(q)
  {
    assert Run(dirOf, []) == Init();
    StartupReachesServing(dirOf, [], p);
    assert [] + Startup(p) == Startup(p);
    StartupReachesServing(dirOf, Startup(p), q);
    run := Startup(p) + Startup(q);
  }

  /** On the way there the second agent's startup takes the first one's socket. */
  lemma SecondStartupSteals(dirOf: Pid -> Dir, p: Pid, q: Pid) returns (run: seq<Event>)
    requires dirOf(p) != dirOf(q)
    ensures StealsFrom(dirOf, Run(dirOf, run), UnlinkSocket(q, true), p)
  {
    assert Run(dirOf, []) == Init();
    StartupReachesServing(dirOf, [], p);
    assert [] + Startup(p) == Startup(p);
    var s := Run(dirOf, Startup(p));
    run := Startup(p) + [Acquire(q)];
    assert run[..|run| - 1] == Startup(p);
    assert Run(dirOf, run) == Next(dirOf, s, Acquire(q));
  }

  /** Exactly one data directory makes agents safe from each other, whatever they do and whenever they fail. */
  lemma NobodyStealsIffOneDirectory(dirOf: Pid -> Dir)
    ensures OneDirectory(dirOf) <==> forall run, e, victim :: !StealsFrom(dirOf, Run(dirOf, run), e, victim)
  {
    if OneDirectory(dirOf) {
      forall run, e, victim ensures !StealsFrom(dirOf, Run(dirOf, run), e, victim) {
        NoAgentStealsFiles(dirOf, run, e, victim);
      }
    } else {
      var p, q :| dirOf(p) != dirOf(q);
      var run := SecondStartupSteals(dirOf, p, q);
      assert exists run, e, victim :: StealsFrom(dirOf, Run(dirOf, run), e, victim) by {
        assert StealsFrom(dirOf, Run(dirOf, run), UnlinkSocket(q, true), p);
      }
    }
  }

  lemma Steps(dirOf: Pid -> Dir, run: seq<Event>, k: nat)
    requires k < |run|
    ensures Run(dirOf, run[..k + 1]) == Next(dirOf, Run(dirOf, run[..k]), run[k])
  {
    assert run[..k + 1][..k] == run[..k];
  }

  // ---------------------------------------------------------------------------
  // Files that outlive their agent
  // ---------------------------------------------------------------------------

  /** The step ends p's hold on the socket without removing it: a failed chmod, a failed removal or a death. */
  predicate LeavesSocket(s: State, e: Event, p: Pid) {
    e.pid == p &&
    match e
    case SetMode(_, ok) => !ok && StageOf(s, p) == Bound
    case RemoveSocket(_, removed) => !removed && StageOf(s, p) == Cleaning
    case Die(_) => OwnsSocket(StageOf(s, p))
    case _ => false
  }

  /** The step removes whatever socket there is: a startup's unlink or a cleanup. */
  predicate ClearsSocket(s: State, e: Event) {
    match e
    case UnlinkSocket(q, removed) => removed && StageOf(s, q) == Locked
    case RemoveSocket(q, removed) => removed && StageOf(s, q) == Cleaning
    case _ => false
  }

  predicate SocketOutlives(s: State, p: Pid) {
    s.socket == Some(p) && !OwnsSocket(StageOf(s, p))
  }

  ghost predicate SocketLeftAt(dirOf: Pid -> Dir, run: seq<Event>, p: Pid, k: nat) {
    && k < |run| && LeavesSocket(Run(dirOf, run[..k]), run[k], p)
    && forall j :: k < j < |run| ==> !ClearsSocket(Run(dirOf, run[..j]), run[j])
  }

  /**
   Over every run on one data directory: a socket file is there after its agent gave it up exactly
   if the agent failed its chmod, failed to remove it or died holding it, and nobody removed it since.
   */
  lemma {:induction false} SocketOutlivesIff(dirOf: Pid -> Dir, run: seq<Event>, p: Pid)
    requires OneDirectory(dirOf)
    ensures SocketOutlives(Run(dirOf, run), p) <==> exists k: nat :: SocketLeftAt(dirOf, run, p, k)
  {
    if run != [] {
      var front := run[..|run| - 1];
      SocketOutlivesIff(dirOf, front, p);
      AgentsStayExclusive(dirOf, front);
      SocketStep(dirOf, Run(dirOf, front), run[|run| - 1], p);
      SocketLeftAtSnoc(dirOf, run, p);
    }
  }

  lemma SocketLeftAtSnoc(dirOf: Pid -> Dir, run: seq<Event>, p: Pid)
    requires run != []
    ensures var n := |run| - 1;
            var s := Run(dirOf, run[..n]);
            (exists k: nat :: SocketLeftAt(dirOf, run, p, k)) <==>
            LeavesSocket(s, run[n], p)
              || ((exists k: nat :: SocketLeftAt(dirOf, run[..n], p, k)) && !ClearsSocket(s, run[n]))
  {
    hide Run, LeavesSocket, ClearsSocket;
    var n := |run| - 1;
    var front, s := run[..n], Run(dirOf, run[..n]);
    forall k: nat | k < n
      ensures SocketLeftAt(dirOf, run, p, k) <==> SocketLeftAt(dirOf, front, p, k) && !ClearsSocket(s, run[n])
    {
      assert forall j :: 0 <= j < n ==> front[..j] == run[..j] && front[j] == run[j];
    }
    if LeavesSocket(s, run[n], p) { assert SocketLeftAt(dirOf, run, p, n); }
    if k: nat :| SocketLeftAt(dirOf, run, p, k) { assert k < n || k == n; }
  }

  lemma SocketStep(dirOf: Pid -> Dir, s: State, e: Event, p: Pid)
    requires OneDirectory(dirOf) && Exclusive(dirOf, s)
    ensures SocketOutlives(Next(dirOf, s, e), p) <==>
            LeavesSocket(s, e, p) || (SocketOutlives(s, p) && !ClearsSocket(s, e))
  {
  }

  /** The step ends p's hold on the pidfile without removing it. */
  predicate LeavesPidFile(s: State, e: Event, p: Pid) {
    e.pid == p &&
    match e
    case RemovePidFile(_, removed) => !removed && (StageOf(s, p).SocketGone? || StageOf(s, p).Failing?)
    case Die(_) => OwnsPidFile(StageOf(s, p))
    case _ => false
  }

  /** The step removes or overwrites whatever pidfile there is. */
  predicate ReplacesPidFile(s: State, e: Event) {
    match e
    case WritePidFile(q, outcome) => !outcome.Untouched? && StageOf(s, q) == Unlinked
    case RemovePidFile(q, removed) => removed && (StageOf(s, q).SocketGone? || StageOf(s, q).Failing?)
    case _ => false
  }

  predicate PidFileOutlives(s: State, p: Pid) {
    s.pidfile == Some(Holds(p)) && !OwnsPidFile(StageOf(s, p))
  }

  ghost predicate PidFileLeftAt(dirOf: Pid -> Dir, run: seq<Event>, p: Pid, k: nat) {
    && k < |run| && LeavesPidFile(Run(dirOf, run[..k]), run[k], p)
    && forall j :: k < j < |run| ==> !ReplacesPidFile(Run(dirOf, run[..j]), run[j])
  }

  /**
   A pidfile naming an agent that gave it up is there exactly if the agent failed to remove it or
   died holding it, and nobody has removed or overwritten it since. A failed chmod is no such step:
   it takes the pidfile away, and so can leave a socket alone behind.
   */
  lemma {:induction false} PidFileOutlivesIff(dirOf: Pid -> Dir, run: seq<Event>, p: Pid)
    requires OneDirectory(dirOf)
    ensures PidFileOutlives(Run(dirOf, run), p) <==> exists k: nat :: PidFileLeftAt(dirOf, run, p, k)
  {
    if run != [] {
      var front := run[..|run| - 1];
      PidFileOutlivesIff(dirOf, front, p);
      AgentsStayExclusive(dirOf, front);
      PidFileStep(dirOf, Run(dirOf, front), run[|run| - 1], p);
      PidFileLeftAtSnoc(dirOf, run, p);
    }
  }

  lemma PidFileLeftAtSnoc(dirOf: Pid -> Dir, run: seq<Event>, p: Pid)
    requires run != []
    ensures var n := |run| - 1;
            var s := Run(dirOf, run[..n]);
            (exists k: nat :: PidFileLeftAt(dirOf, run, p, k)) <==>
            LeavesPidFile(s, run[n], p)
              || ((exists k: nat :: PidFileLeftAt(dirOf, run[..n], p, k)) && !ReplacesPidFile(s, run[n]))
  {
    hide Run, LeavesPidFile, ReplacesPidFile;
    var n := |run| - 1;
    var front, s := run[..n], Run(dirOf, run[..n]);
    forall k: nat | k < n
      ensures PidFileLeftAt(dirOf, run, p, k) <==> PidFileLeftAt(dirOf, front, p, k) && !ReplacesPidFile(s, run[n])
    {
      assert forall j :: 0 <= j < n ==> front[..j] == run[..j] && front[j] == run[j];
    }
    if LeavesPidFile(s, run[n], p) { assert PidFileLeftAt(dirOf, run, p, n); }
    if k: nat :| PidFileLeftAt(dirOf, run, p, k) { assert k < n || k == n; }
  }

  lemma PidFileStep(dirOf: Pid -> Dir, s: State, e: Event, p: Pid)
    requires OneDirectory(dirOf) && Exclusive(dirOf, s)
    ensures PidFileOutlives(Next(dirOf, s, e), p) <==>
            LeavesPidFile(s, e, p) || (PidFileOutlives(s, p) && !ReplacesPidFile(s, e))
  {
  }

  /** A failed chmod, over any run: the agent takes its pidfile away, and its socket file outlives it. */
  lemma FailedChmodLeavesSocket(dirOf: Pid -> Dir, run: seq<Event>, p: Pid)
    requires OneDirectory(dirOf) && StageOf(Run(dirOf, run), p) == Bound
    ensures var t := Run(dirOf, run + [SetMode(p, false), RemovePidFile(p, true), Release(p)]);
            t.pidfile.None? && SocketOutlives(t, p) && !Active(StageOf(t, p))
  {
    AgentsStayExclusive(dirOf, run);
    ChmodFails(dirOf, Run(dirOf, run), p);
    var full, n := run + [SetMode(p, false), RemovePidFile(p, true), Release(p)], |run|;
    assert full[..n] == run && full[..n + 3] == full;
    hide Run, Next, SocketOutlives, StageOf;
    Steps(dirOf, full, n);
    Steps(dirOf, full, n + 1);
    Steps(dirOf, full, n + 2);
  }

  lemma ChmodFails(dirOf: Pid -> Dir, s: State, p: Pid)
    requires Exclusive(dirOf, s) && StageOf(s, p) == Bound
    ensures var t := Next(dirOf, Next(dirOf, Next(dirOf, s, SetMode(p, false)), RemovePidFile(p, true)), Release(p));
            t.pidfile.None? && SocketOutlives(t, p) && !Active(StageOf(t, p))
  {
  }
}
