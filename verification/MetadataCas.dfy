/**
 Compare-and-swap of the shared metadata object. A push reads the current version, compares it with
 the one it expects, and later renames its own metadata into place; pushes of any number of devices
 interleave between those two steps. Each push publishes expected version + 1.
 */
module MetadataCas {
  import opened Prelude

  /** A published metadata object: its version and the push that wrote it. */
  datatype Meta = Meta(version: nat, push: nat)

  datatype Stage =
    | Idle
    | Checked(seen: Option<Meta>)   // the comparison succeeded on this object
    | Published(seen: Option<Meta>, replaced: Option<Meta>)
    | Refused

  datatype State = State(current: Option<Meta>, stage: map<nat, Stage>, log: seq<Meta>)

  datatype Event = Check(push: nat) | Publish(push: nat, ok: bool)

  function StageOf(s: State, p: nat): Stage {
    if p in s.stage then s.stage[p] else Idle
  }

  /**
   The comparison: a missing object only matches an expected version of zero, and an object whose
   version is below one fails validation.
   */
  predicate Matches(current: Option<Meta>, expected: nat) {
    match current
    case Some(meta) => meta.version >= 1 && meta.version == expected
    case None => expected == 0
  }

  function Next(expected: nat -> nat, s: State, e: Event): State {
    match e
    case Check(p) =>
      if StageOf(s, p) != Idle then s
      else if Matches(s.current, expected(p)) then s.(stage := s.stage[p := Checked(s.current)])
      else s.(stage := s.stage[p := Refused])
    case Publish(p, ok) =>
      match StageOf(s, p)
      case Checked(seen) =>
        if ok then
          var meta := Meta(expected(p) + 1, p);
          State(Some(meta), s.stage[p := Published(seen, s.current)], s.log + [meta])
        else s.(stage := s.stage[p := Refused])
      case _ => s
  }

  function Start(initial: Option<Meta>): State { State(initial, map[], []) }

  function Run(expected: nat -> nat, initial: Option<Meta>, run: seq<Event>): State {
    if run == [] then Start(initial)
    else Next(expected, Run(expected, initial, run[..|run| - 1]), run[|run| - 1])
  }

  /** The step at which push p's metadata lands. */
  predicate LandsAt(expected: nat -> nat, initial: Option<Meta>, run: seq<Event>, k: nat, p: nat) {
    k < |run| && run[k] == Publish(p, true) && StageOf(Run(expected, initial, run[..k]), p).Checked?
  }

  /** The step at which push p's comparison succeeds. */
  predicate ChecksAt(expected: nat -> nat, initial: Option<Meta>, run: seq<Event>, k: nat, p: nat) {
    && k < |run| && run[k] == Check(p)
    && StageOf(Run(expected, initial, run[..k]), p).Idle?
    && Matches(Run(expected, initial, run[..k]).current, expected(p))
  }

  /** Between p's comparison at `i` and its publication at `j`, some other push landed. */
  ghost predicate Interrupted(expected: nat -> nat, initial: Option<Meta>, run: seq<Event>, i: nat, j: nat) {
    exists k, q :: i < k < j && LandsAt(expected, initial, run, k, q)
  }

  predicate Landed(log: seq<Meta>, p: nat) {
    exists k :: 0 <= k < |log| && log[k].push == p
  }

  lemma LandedSnoc(log: seq<Meta>, last: Meta, p: nat)
    ensures Landed(log + [last], p) <==> Landed(log, p) || last.push == p
  {
    var longer := log + [last];
    assert longer[|log|] == last;
    if Landed(log, p) {
      var k :| 0 <= k < |log| && log[k].push == p;
      assert longer[k].push == p;
    }
  }

  /** Tags identify publications: what is current was written by its push, and no push lands twice. */
  ghost predicate Tagged(expected: nat -> nat, initial: Option<Meta>, s: State) {
    && (forall p :: StageOf(s, p).Published? <==> Landed(s.log, p))
    && (forall k :: 0 <= k < |s.log| ==> s.log[k] == Meta(expected(s.log[k].push) + 1, s.log[k].push))
    && s.current == (if s.log == [] then initial else Some(s.log[|s.log| - 1]))
    && (forall i, j :: 0 <= i < j < |s.log| ==> s.log[i].push != s.log[j].push)
  }

  lemma {:induction false} RunsStayTagged(expected: nat -> nat, initial: Option<Meta>, run: seq<Event>)
    ensures Tagged(expected, initial, Run(expected, initial, run))
  {
    if run != [] {
      var front, e := run[..|run| - 1], run[|run| - 1];
      RunsStayTagged(expected, initial, front);
      var s := Run(expected, initial, front);
      var t := Next(expected, s, e);
      if e.Publish? && e.ok && StageOf(s, e.push).Checked? {
        var meta := Meta(expected(e.push) + 1, e.push);
        assert !Landed(s.log, e.push);
        assert t.log[|s.log|] == meta;
        forall p ensures StageOf(t, p).Published? <==> Landed(t.log, p) {
          LandedSnoc(s.log, meta, p);
        }
      } else {
        assert t.log == s.log;
      }
    }
  }

  /** From `i` to `j` nothing lands: the object and the log stay as they were. */
  lemma {:induction false} QuietInterval(expected: nat -> nat, initial: Option<Meta>, run: seq<Event>, i: nat, j: nat)
    requires i <= j <= |run|
    requires forall k, q :: i <= k < j ==> !LandsAt(expected, initial, run, k, q)
    ensures Run(expected, initial, run[..j]).current == Run(expected, initial, run[..i]).current
    decreases j
  {
    if i < j {
      QuietInterval(expected, initial, run, i, j - 1);
      assert run[..j][..j - 1] == run[..j - 1];
      var e := run[j - 1];
      if e.Publish? { assert !LandsAt(expected, initial, run, j - 1, e.push); }
    }
  }

  /** The log only grows. */
  lemma {:induction false} LogGrows(expected: nat -> nat, initial: Option<Meta>, run: seq<Event>, i: nat, j: nat)
    requires i <= j <= |run|
    ensures Run(expected, initial, run[..i]).log <= Run(expected, initial, run[..j]).log
    decreases j
  {
    if i < j {
      LogGrows(expected, initial, run, i, j - 1);
      assert run[..j][..j - 1] == run[..j - 1];
    }
  }

  /**
   A push loses nobody's update exactly when no other push lands between its comparison and its
   publication: only then is the object it replaces the very one it compared with.
   */
  lemma ReplacesWhatItCheckedIff(expected: nat -> nat, initial: Option<Meta>, run: seq<Event>, i: nat, j: nat, p: nat)
    requires ChecksAt(expected, initial, run, i, p) && i < j && LandsAt(expected, initial, run, j, p)
    requires initial.Some? ==> !PushesIn(run, initial.value.push)
    ensures Run(expected, initial, run[..j]).current == Run(expected, initial, run[..i]).current
            <==> !Interrupted(expected, initial, run, i, j)
  {
    if !Interrupted(expected, initial, run, i, j) {
      hide Run;
      forall k, q | i <= k < j ensures !LandsAt(expected, initial, run, k, q) { }
      QuietInterval(expected, initial, run, i, j);
    } else {
      var k, q :| i < k < j && LandsAt(expected, initial, run, k, q);
      LandingGrowsLog(expected, initial, run, i, k, j, q);
      hide Run;
      LandingChangesCurrent(expected, initial, run, i, j);
    }
  }

  lemma LandingGrowsLog(expected: nat -> nat, initial: Option<Meta>, run: seq<Event>, i: nat, k: nat, j: nat, q: nat)
    requires i <= k < j <= |run| && LandsAt(expected, initial, run, k, q)
    ensures var before, after := Run(expected, initial, run[..i]).log, Run(expected, initial, run[..j]).log;
            |before| < |after| && before <= after
  {
    assert run[..k + 1][..k] == run[..k];
    assert Run(expected, initial, run[..k + 1]) == Next(expected, Run(expected, initial, run[..k]), run[k]);
    hide Run;
    LogGrows(expected, initial, run, i, k);
    LogGrows(expected, initial, run, k + 1, j);
    LogGrows(expected, initial, run, i, j);
  }

  /** More publications in the log mean a different current object: no push lands twice. */
  lemma LandingChangesCurrent(expected: nat -> nat, initial: Option<Meta>, run: seq<Event>, i: nat, j: nat)
    requires i <= j <= |run|
    requires initial.Some? ==> !PushesIn(run, initial.value.push)
    requires var before, after := Run(expected, initial, run[..i]).log, Run(expected, initial, run[..j]).log;
             |before| < |after| && before <= after
    ensures Run(expected, initial, run[..j]).current != Run(expected, initial, run[..i]).current
  {
    hide Run, PushesIn;
    RunsStayTagged(expected, initial, run[..i]);
    RunsStayTagged(expected, initial, run[..j]);
    var before, after := Run(expected, initial, run[..i]), Run(expected, initial, run[..j]);
    var n := |after.log| - 1;
    if before.log == [] {
      LoggedPushesRan(expected, initial, run, j, n);
    } else {
      assert before.log[|before.log| - 1] == after.log[|before.log| - 1];
    }
  }

  predicate PushesIn(run: seq<Event>, q: nat) {
    exists k :: 0 <= k < |run| && run[k].push == q
  }

  lemma {:induction false} LoggedPushesRan(expected: nat -> nat, initial: Option<Meta>, run: seq<Event>, j: nat, n: nat)
    requires j <= |run| && n < |Run(expected, initial, run[..j]).log|
    ensures PushesIn(run, Run(expected, initial, run[..j]).log[n].push)
    decreases j
  {
    if j > 0 {
      assert run[..j][..j - 1] == run[..j - 1];
      if n < |Run(expected, initial, run[..j - 1]).log| {
        LoggedPushesRan(expected, initial, run, j - 1, n);
      } else {
        assert run[j - 1].push == Run(expected, initial, run[..j]).log[n].push;
      }
    }
  }

  // ---------------------------------------------------------------------------
  // Chains
  // ---------------------------------------------------------------------------

  /** Versions of successive publications go up by one. */
  predicate Chain(log: seq<Meta>) {
    forall k :: 0 < k < |log| ==> log[k].version == log[k - 1].version + 1
  }

  /** No publication falls inside another push's window: its comparison still holds when it lands. */
  ghost predicate NoOverlap(expected: nat -> nat, initial: Option<Meta>, run: seq<Event>) {
    forall i, j, p :: 0 <= i < j && ChecksAt(expected, initial, run, i, p) && LandsAt(expected, initial, run, j, p)
      ==> !Interrupted(expected, initial, run, i, j)
  }

  /** A push that reaches its publication compared at some earlier step. */
  lemma {:induction false} CheckedBefore(expected: nat -> nat, initial: Option<Meta>, run: seq<Event>, j: nat, p: nat)
    returns (i: nat)
    requires j <= |run| && StageOf(Run(expected, initial, run[..j]), p).Checked?
    ensures i < j && ChecksAt(expected, initial, run, i, p)
    decreases j
  {
    if j == 0 {
      assert false;
    } else {
      assert run[..j][..j - 1] == run[..j - 1];
      var before := Run(expected, initial, run[..j - 1]);
      if StageOf(before, p).Checked? {
        i := CheckedBefore(expected, initial, run, j - 1, p);
      } else {
        i := j - 1;
      }
    }
  }

  lemma NoOverlapPrefix(expected: nat -> nat, initial: Option<Meta>, run: seq<Event>, n: nat)
    requires n <= |run| && NoOverlap(expected, initial, run)
    ensures NoOverlap(expected, initial, run[..n])
  {
    var front := run[..n];
    assert forall k :: 0 <= k < n ==> front[..k] == run[..k];
    forall i, j, p | 0 <= i < j && ChecksAt(expected, initial, front, i, p) && LandsAt(expected, initial, front, j, p)
      ensures !Interrupted(expected, initial, front, i, j)
    {
      assert front[..i] == run[..i] && front[..j] == run[..j];
      assert ChecksAt(expected, initial, run, i, p) && LandsAt(expected, initial, run, j, p);
      if Interrupted(expected, initial, front, i, j) {
        var k, q :| i < k < j && LandsAt(expected, initial, front, k, q);
        assert front[..k] == run[..k];
        assert LandsAt(expected, initial, run, k, q);
        assert false;
      }
    }
  }

  /**
   When no publication falls inside another push's window, the publications form a chain: versions
   go up by exactly one from the initial object on.
   */
  lemma {:induction false} PublicationsFormChain(expected: nat -> nat, initial: Option<Meta>, run: seq<Event>)
    requires NoOverlap(expected, initial, run)
    ensures ChainFrom(initial, Run(expected, initial, run).log)
  {
    if run != [] {
      var n := |run| - 1;
      var front, e := run[..n], run[n];
      NoOverlapPrefix(expected, initial, run, n);
      PublicationsFormChain(expected, initial, front);
      var s := Run(expected, initial, front);
      if e.Publish? && e.ok && StageOf(s, e.push).Checked? {
        var i := CheckedBefore(expected, initial, run, n, e.push);
        assert LandsAt(expected, initial, run, n, e.push);
        assert !Interrupted(expected, initial, run, i, n);
        forall k, q | i <= k < n ensures !LandsAt(expected, initial, run, k, q) { }
        QuietInterval(expected, initial, run, i, n);
        assert Matches(s.current, expected(e.push));
        RunsStayTagged(expected, initial, front);
      }
    }
  }

  /** The version the first publication starts from: a missing object counts as version zero. */
  function BaseVersion(initial: Option<Meta>): nat {
    if initial.Some? then initial.value.version else 0
  }

  /** Versions go up by exactly one from the initial object on. */
  predicate ChainFrom(initial: Option<Meta>, log: seq<Meta>) {
    Chain(log) && (log != [] ==> log[0].version == BaseVersion(initial) + 1)
  }

  lemma {:induction false} ChainVersions(initial: Option<Meta>, log: seq<Meta>, n: nat)
    requires ChainFrom(initial, log) && n < |log|
    ensures log[n].version == BaseVersion(initial) + n + 1
  {
    if n > 0 {
      ChainVersions(initial, log, n - 1);
    }
  }

  /** A push that lands behind another's back repeats a version, which breaks the chain. */
  lemma InterruptedPushBreaksChain(expected: nat -> nat, initial: Option<Meta>, run: seq<Event>, i: nat, j: nat, p: nat)
    requires ChecksAt(expected, initial, run, i, p) && LandsAt(expected, initial, run, j, p)
    requires Interrupted(expected, initial, run, i, j)
    ensures !ChainFrom(initial, Run(expected, initial, run).log)
  {
    var m, n := LandedAfter(expected, initial, run, i, j, p);
    RunsStayTagged(expected, initial, run[..i]);
    hide Run;
    var seen := Run(expected, initial, run[..i]);
    RepeatedVersionBreaksChain(initial, Run(expected, initial, run).log, m, n, expected(p));
  }

  /** The positions in the final log: the `m` publications before the comparison, and the push itself at `n`. */
  lemma LandedAfter(expected: nat -> nat, initial: Option<Meta>, run: seq<Event>, i: nat, j: nat, p: nat)
    returns (m: nat, n: nat)
    requires LandsAt(expected, initial, run, j, p) && Interrupted(expected, initial, run, i, j)
    ensures var log := Run(expected, initial, run).log;
            && m < n < |log| && log[n] == Meta(expected(p) + 1, p)
            && log[..m] == Run(expected, initial, run[..i]).log
  {
    var k, q :| i < k < j && LandsAt(expected, initial, run, k, q);
    LandingGrowsLog(expected, initial, run, i, k, j, q);
    Steps(expected, initial, run, j);
    LogGrows(expected, initial, run, j + 1, |run|);
    LogGrows(expected, initial, run, i, |run|);
    assert run[..|run|] == run;
    hide Run;
    m, n := |Run(expected, initial, run[..i]).log|, |Run(expected, initial, run[..j]).log|;
    assert Run(expected, initial, run[..j + 1]).log[n] == Meta(expected(p) + 1, p);
  }

  lemma RepeatedVersionBreaksChain(initial: Option<Meta>, log: seq<Meta>, m: nat, n: nat, version: nat)
    requires m < n < |log| && log[n].version == version + 1
    requires version == if m == 0 then BaseVersion(initial) else log[m - 1].version
    ensures !ChainFrom(initial, log)
  {
    if ChainFrom(initial, log) {
      ChainVersions(initial, log, n);
      if m > 0 { ChainVersions(initial, log, m - 1); }
      assert false;
    }
  }

  lemma Steps(expected: nat -> nat, initial: Option<Meta>, run: seq<Event>, k: nat)
    requires k < |run|
    ensures Run(expected, initial, run[..k + 1]) == Next(expected, Run(expected, initial, run[..k]), run[k])
  {
    assert run[..k + 1][..k] == run[..k];
  }

  /** The publications form a chain exactly when none falls inside another push's window. */
  lemma ChainIffNoOverlap(expected: nat -> nat, initial: Option<Meta>, run: seq<Event>)
    ensures ChainFrom(initial, Run(expected, initial, run).log) <==> NoOverlap(expected, initial, run)
  {
    if NoOverlap(expected, initial, run) {
      PublicationsFormChain(expected, initial, run);
    } else {
      var i, j, p :| 0 <= i < j && ChecksAt(expected, initial, run, i, p) && LandsAt(expected, initial, run, j, p)
        && Interrupted(expected, initial, run, i, j);
      InterruptedPushBreaksChain(expected, initial, run, i, j, p);
    }
  }

  /** Hence, with a chain, versions strictly increase and at most one push succeeds per expected version. */
  lemma {:induction false} ChainHasOneWinnerPerVersion(expected: nat -> nat, initial: Option<Meta>, run: seq<Event>)
    requires NoOverlap(expected, initial, run)
    ensures var log := Run(expected, initial, run).log;
            && (forall i, j :: 0 <= i < j < |log| ==> log[i].version < log[j].version)
            && (forall i, j :: 0 <= i < |log| && 0 <= j < |log| && expected(log[i].push) == expected(log[j].push) ==>
                 i == j)
  {
    PublicationsFormChain(expected, initial, run);
    RunsStayTagged(expected, initial, run);
    var log := Run(expected, initial, run).log;
    ChainIncreases(log);
  }

  lemma {:induction false} ChainIncreases(log: seq<Meta>)
    requires Chain(log)
    ensures forall i, j :: 0 <= i < j < |log| ==> log[i].version < log[j].version
  {
    if |log| > 1 {
      var n := |log| - 1;
      ChainIncreases(log[..n]);
      assert forall i :: 0 <= i < n - 1 ==> log[..n][i].version < log[..n][n - 1].version;
    }
  }

  /**
   A push on its own succeeds exactly if it expects what is there: version zero of a store without
   metadata, and otherwise the very version of it, which then goes up by one.
   */
  lemma LonePushSucceedsIff(expected: nat -> nat, initial: Option<Meta>, p: nat)
    ensures var s := Run(expected, initial, [Check(p), Publish(p, true)]);
            && (StageOf(s, p).Published? <==>
                  if initial.None? then expected(p) == 0 else initial.value.version == expected(p) && expected(p) >= 1)
            && s.current == if StageOf(s, p).Published? then Some(Meta(expected(p) + 1, p)) else initial
  {
    var run := [Check(p), Publish(p, true)];
    assert run[..1] == [Check(p)] && run[..1][..0] == [];
    assert Run(expected, initial, run[..1]) == Next(expected, Start(initial), Check(p));
  }

  /**
   The loss the comparison cannot prevent: two devices expecting the same version both compare
   before either publishes, both succeed, and the second replaces the first's metadata unseen.
   */
  lemma OverlappingPushesLoseOne(version: nat) returns (run: seq<Event>)
    requires version >= 1
    ensures var initial, expected := Some(Meta(version, 9)), (p: nat) => version;
            var s := Run(expected, initial, run);
            && StageOf(s, 1) == Published(initial, initial)
            && StageOf(s, 2) == Published(initial, Some(Meta(version + 1, 1)))
            && s.current == Some(Meta(version + 1, 2))
  {
    run := [Check(1), Check(2), Publish(1, true), Publish(2, true)];
    var expected := (p: nat) => version;
    var initial := Some(Meta(version, 9));
    var s1 := Next(expected, Start(initial), Check(1));
    assert run[..1] == [Check(1)] && run[..1][..0] == [];
    assert Run(expected, initial, run[..1]) == s1;
    var s2 := Next(expected, s1, Check(2));
    assert run[..2][..1] == run[..1];
    assert Run(expected, initial, run[..2]) == s2;
    var s3 := Next(expected, s2, Publish(1, true));
    assert run[..3][..2] == run[..2];
    assert Run(expected, initial, run[..3]) == s3;
    assert run[..4] == run && run[..4][..3] == run[..3];
  }
}
