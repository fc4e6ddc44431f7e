/**
 The idle lock of the agent: a timer re-armed by tokens that successful signatures push through a
 64-slot channel. A run interleaves signatures, token consumption, the passing of time and the
 timer firing in any order; a token that finds the channel full is dropped.
 */
module IdleTimer {
  const SLOTS: nat := 64

  /** `try_send`: a full channel drops the token. */
  function Push(queued: nat): nat { if queued < SLOTS then queued + 1 else queued }

  datatype Event =
    | Sign             // a successful signature: `try_send` a token
    | Consume          // the timer receives a token and re-arms its window
    | Wait(ticks: nat) // time passes
    | Fire             // the sleep completes and the agent shuts down

  /** `signs` is the history of signature times; the channel only holds `queued` tokens. */
  datatype State = State(now: nat, armedAt: nat, queued: nat, signs: seq<nat>, stopped: bool)

  function Start(now: nat): State { State(now, now, 0, [], false) }

  /** The window has passed. */
  predicate MayFire(secs: nat, s: State) {
    !s.stopped && s.now >= s.armedAt + secs
  }

  /** A stopped agent stays as it is. */
  function Next(s: State, e: Event): State {
    if s.stopped then s else
    match e
    case Sign => s.(queued := Push(s.queued), signs := s.signs + [s.now])
    case Consume => s.(queued := s.queued - (if s.queued > 0 then 1 else 0), armedAt := s.now)
    case Wait(ticks) => s.(now := s.now + ticks)
    case Fire => s.(stopped := true)
  }

  function Run(s: State, run: seq<Event>): State {
    if run == [] then s else Next(Run(s, run[..|run| - 1]), run[|run| - 1])
  }

  /** Every signature so far is no later than the window's start, unless a token is waiting. */
  predicate Covered(start: nat, s: State) {
    && start <= s.armedAt <= s.now
    && forall i :: 0 <= i < |s.signs| ==> s.signs[i] <= s.now && (s.signs[i] <= s.armedAt || s.queued > 0)
  }

  /** A dropped token finds 64 others waiting, so it needs none of its own. */
  lemma {:induction false} RunsStayCovered(start: nat, run: seq<Event>)
    ensures Covered(start, Run(Start(start), run))
  {
    if run != [] {
      RunsStayCovered(start, run[..|run| - 1]);
    }
  }

  /** The agent has been up for a whole window, and no signature lies in the open interval (now - secs, now). */
  predicate Idle(secs: nat, start: nat, s: State) {
    && s.now >= start + secs
    && forall i :: 0 <= i < |s.signs| ==> !(s.signs[i] < s.now < s.signs[i] + secs)
  }

  /**
   Over every run: a timer that fires with its channel empty shuts the agent down only after a whole
   window since the start and since every signature, those with dropped tokens included.
   */
  lemma EmptyChannelMeansIdle(secs: nat, start: nat, run: seq<Event>)
    requires var s := Run(Start(start), run); MayFire(secs, s) && s.queued == 0
    ensures var s := Run(Start(start), run);
            s.now >= start + secs && forall i :: 0 <= i < |s.signs| ==> s.now >= s.signs[i] + secs
  {
    RunsStayCovered(start, run);
  }

  /**
   Exactly when a shutdown comes too early, over every run: a token is waiting as the timer fires,
   and a signature fell after the window's start and less than a window ago.
   */
  lemma EarlyShutdownIff(secs: nat, start: nat, run: seq<Event>)
    requires MayFire(secs, Run(Start(start), run))
    ensures var s := Run(Start(start), run);
            !Idle(secs, start, s) <==>
            s.queued > 0 && exists i :: 0 <= i < |s.signs| && s.armedAt < s.signs[i] < s.now < s.signs[i] + secs
  {
    RunsStayCovered(start, run);
  }

  // ---------------------------------------------------------------------------
  // An agent left alone
  // ---------------------------------------------------------------------------

  /** The timer takes `n` tokens in a row. */
  function Takes(n: nat): seq<Event> {
    if n == 0 then [] else Takes(n - 1) + [Consume]
  }

  lemma {:induction false} TakesFreeSlots(start: nat, run: seq<Event>, n: nat)
    requires n <= Run(Start(start), run).queued && !Run(Start(start), run).stopped
    ensures var s := Run(Start(start), run);
            Run(Start(start), run + Takes(n))
            == s.(queued := s.queued - n, armedAt := if n == 0 then s.armedAt else s.now)
  {
    if n == 0 {
      assert run + Takes(0) == run;
    } else {
      TakesFreeSlots(start, run, n - 1);
      var longer := run + Takes(n);
      assert longer[..|longer| - 1] == run + Takes(n - 1) && longer[|longer| - 1] == Consume;
    }
  }

  /**
   After any run, an agent nobody asks to sign can be shut down: the waiting tokens are as many as can
   be taken, and once they are, and a window has passed, the timer may fire, and rightly so.
   */
  lemma LeftAloneShutsDown(secs: nat, start: nat, run: seq<Event>)
    requires !Run(Start(start), run).stopped
    ensures var s := Run(Start(start), run);
            var t := Run(Start(start), run + Takes(s.queued) + [Wait(secs)]);
            && t.queued == 0 && t.signs == s.signs && t.now == s.now + secs
            && MayFire(secs, t) && Idle(secs, start, t)
            && (s.queued > 0 && secs > 0 ==>
                  !MayFire(secs, Run(Start(start), run + Takes(s.queued) + [Wait(secs - 1)])))
  {
    var n := Run(Start(start), run).queued;
    var taken := run + Takes(n);
    TakesFreeSlots(start, run, n);
    RunsStayCovered(start, run);
    assert (taken + [Wait(secs)])[..|taken|] == taken;
    if secs > 0 { assert (taken + [Wait(secs - 1)])[..|taken|] == taken; }
  }

  // ---------------------------------------------------------------------------
  // How late the timer takes its tokens
  // ---------------------------------------------------------------------------

  predicate Possible(s: State, run: seq<Event>) {
    forall k :: 0 <= k < |run| && run[k].Consume? ==> Run(s, run[..k]).queued > 0
  }

  /** No token is taken more than `lag` ticks after the latest signature. */
  predicate Within(lag: nat, s: State, run: seq<Event>) {
    forall k :: 0 <= k < |run| && run[k].Consume? ==>
      var before := Run(s, run[..k]);
      before.signs != [] ==> before.now <= before.signs[|before.signs| - 1] + lag
  }

  /** The window starts at the agent's start or at most `lag` ticks after some signature. */
  predicate ArmedNear(lag: nat, start: nat, s: State) {
    && (s.queued > 0 ==> s.signs != [])
    && (s.armedAt == start || exists i :: 0 <= i < |s.signs| && s.armedAt <= s.signs[i] + lag)
  }

  lemma {:induction false} RunsAreArmedNear(lag: nat, start: nat, run: seq<Event>)
    requires Possible(Start(start), run) && Within(lag, Start(start), run)
    ensures ArmedNear(lag, start, Run(Start(start), run))
  {
    if run != [] {
      var n := |run| - 1;
      var front := run[..n];
      assert forall k :: 0 <= k < n ==> front[..k] == run[..k] && front[k] == run[k];
      RunsAreArmedNear(lag, start, front);
      assert run[n].Consume? ==> Run(Start(start), run[..n]).queued > 0;
      StepIsArmedNear(lag, start, Run(Start(start), front), run[n]);
    }
  }

  lemma StepIsArmedNear(lag: nat, start: nat, s: State, e: Event)
    requires ArmedNear(lag, start, s)
    requires e.Consume? ==> s.queued > 0 && (s.signs != [] ==> s.now <= s.signs[|s.signs| - 1] + lag)
    ensures ArmedNear(lag, start, Next(s, e))
  {
    var t := Next(s, e);
    if e.Consume? && !s.stopped {
      assert t.armedAt <= t.signs[|t.signs| - 1] + lag;
    } else if s.armedAt != start {
      var i :| 0 <= i < |s.signs| && s.armedAt <= s.signs[i] + lag;
      assert t.signs[i] == s.signs[i];
    }
  }

  /**
   Nor does the agent linger: with the channel empty and no token ever taken more than `lag` ticks
   late, the timer may fire once a window and the lag have passed since the start and every
   signature. Without lag it may fire exactly when a window has passed.
   */
  lemma FiresWithinLag(secs: nat, lag: nat, start: nat, run: seq<Event>)
    requires Possible(Start(start), run) && Within(lag, Start(start), run)
    requires var s := Run(Start(start), run); !s.stopped && s.queued == 0
    ensures var s := Run(Start(start), run);
            var passed := (d: nat) => s.now >= start + d && forall i :: 0 <= i < |s.signs| ==> s.now >= s.signs[i] + d;
            && (passed(secs + lag) ==> MayFire(secs, s))
            && (MayFire(secs, s) ==> passed(secs))
  {
    RunsAreArmedNear(lag, start, run);
    RunsStayCovered(start, run);
  }

  /** The timer task is scheduled promptly: no time passes while a token is waiting. */
  predicate Prompt(s: State, run: seq<Event>) {
    forall k :: 0 <= k < |run| && run[k].Wait? ==> Run(s, run[..k]).queued == 0
  }

  /** What the window does not cover happened at this very instant. */
  predicate UncoveredIsFresh(s: State) {
    forall i :: 0 <= i < |s.signs| ==> s.signs[i] <= s.armedAt || s.signs[i] == s.now
  }

  lemma {:induction false} PromptTokensAreFresh(start: nat, run: seq<Event>)
    requires Prompt(Start(start), run)
    ensures UncoveredIsFresh(Run(Start(start), run))
  {
    if run != [] {
      var n := |run| - 1;
      var front := run[..n];
      assert forall k :: 0 <= k < n ==> front[..k] == run[..k] && front[k] == run[k];
      PromptTokensAreFresh(start, front);
      RunsStayCovered(start, front);
      assert run[n].Wait? ==> Run(Start(start), run[..n]).queued == 0;
      StepStaysFresh(start, Run(Start(start), front), run[n]);
    }
  }

  lemma StepStaysFresh(start: nat, s: State, e: Event)
    requires Covered(start, s) && UncoveredIsFresh(s) && (e.Wait? ==> s.queued == 0)
    ensures UncoveredIsFresh(Next(s, e))
  {
  }

  /** In particular a prompt timer never shuts down early, even with tokens of this instant waiting. */
  lemma PromptShutdownMeansIdle(secs: nat, start: nat, run: seq<Event>)
    requires Prompt(Start(start), run) && MayFire(secs, Run(Start(start), run))
    ensures Idle(secs, start, Run(Start(start), run))
  {
    PromptTokensAreFresh(start, run);
    EarlyShutdownIff(secs, start, run);
  }

  /**
   The waiting token is a real case: with a window of any length of at least two ticks, the agent
   can shut down one tick after a successful signature.
   */
  lemma LateConsumptionShutsDownEarly(secs: nat) returns (run: seq<Event>)
    requires secs >= 2
    ensures var s := Run(Start(0), run);
            Possible(Start(0), run) && MayFire(secs, s) && s.signs == [s.now - 1] && !Idle(secs, 0, s)
  {
    run := [Wait(secs - 1), Sign, Wait(1)];
    var s0 := Start(0);
    assert run[..3] == run && run[..2] == [Wait(secs - 1), Sign] && run[..1] == [Wait(secs - 1)];
    assert Run(s0, run[..1]) == Next(s0, run[0]) by { assert run[..1][..0] == []; }
    assert Run(s0, run[..2]) == Next(Run(s0, run[..1]), run[1]) by { assert run[..2][..1] == run[..1]; }
    assert Run(s0, run) == Next(Run(s0, run[..2]), run[2]);
    assert Run(s0, run).signs[0] == secs - 1;
  }
}
