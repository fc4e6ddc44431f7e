/**
 The request handling and the idle timer together: requests of any connections are served, time
 passes, the timer takes tokens and fires, in any order. The timer ends a run wherever it fires,
 in the middle of a connection too.
 */
module AgentIdle {
  import opened SshWire
  import opened Identity
  import opened AgentServer
  import IdleTimer

  datatype Event = Serve(request: seq<byte>) | Consume | Wait(ticks: nat) | Fire

  datatype Answer = Answer(at: nat, reply: seq<byte>)

  datatype State = State(timer: IdleTimer.State, answers: seq<Answer>, audit: seq<AuditRow>)

  function Start(now: nat): State { State(IdleTimer.Start(now), [], []) }

  predicate IsSignature(a: Answer) { a.reply != [] && a.reply[0] == SIGN_RESPONSE }

  /** Until the timer fires the n-th request gets the n-th reply; a sign response pushes a token. */
  ghost function Next(env: Environment, identities: seq<LoadedIdentity>, s: State, e: Event): State {
    if s.timer.stopped then s else
    match e
    case Serve(request) =>
      var t := |s.answers|;
      var answer := Answer(s.timer.now, Reply(env, identities, BlobIndex(identities), t, request));
      State(if IsSignature(answer) then IdleTimer.Next(s.timer, IdleTimer.Sign) else s.timer,
            s.answers + [answer], s.audit + AuditRows(env, identities, BlobIndex(identities), t, request))
    case Consume => s.(timer := IdleTimer.Next(s.timer, IdleTimer.Consume))
    case Wait(ticks) => s.(timer := IdleTimer.Next(s.timer, IdleTimer.Wait(ticks)))
    case Fire => s.(timer := IdleTimer.Next(s.timer, IdleTimer.Fire))
  }

  ghost function Run(env: Environment, identities: seq<LoadedIdentity>, start: nat, run: seq<Event>): State {
    if run == [] then Start(start)
    else Next(env, identities, Run(env, identities, start, run[..|run| - 1]), run[|run| - 1])
  }

  /** The requests served in a run: those before the timer fires. */
  function Served(run: seq<Event>): seq<seq<byte>> {
    if run == [] then []
    else
      var n := |run| - 1;
      Served(run[..n]) +
        match run[n]
        case Serve(request) => if Fire in run[..n] then [] else [request]
        case _ => []
  }

  lemma {:induction false} StoppedIff(env: Environment, identities: seq<LoadedIdentity>, start: nat, run: seq<Event>)
    ensures Run(env, identities, start, run).timer.stopped <==> Fire in run
  {
    if run != [] {
      var n := |run| - 1;
      StoppedIff(env, identities, start, run[..n]);
      assert run == run[..n] + [run[n]];
    }
  }

  /** Once the timer has fired, nothing is answered, recorded or timed any more. */
  lemma {:induction false} NothingAfterShutdown(env: Environment, identities: seq<LoadedIdentity>, start: nat,
                                                run: seq<Event>, later: seq<Event>)
    requires Fire in run
    ensures Run(env, identities, start, run + later) == Run(env, identities, start, run)
    ensures Served(run + later) == Served(run)
  {
    if later == [] {
      assert run + later == run;
    } else {
      var n := |later| - 1;
      NothingAfterShutdown(env, identities, start, run, later[..n]);
      assert (run + later)[..|run| + n] == run + later[..n];
      StoppedIff(env, identities, start, run);
    }
  }

  lemma ServedSnoc(run: seq<Event>)
    requires run != []
    ensures var n := |run| - 1;
            if run[n].Serve? && Fire !in run[..n]
            then |Served(run)| == |Served(run[..n])| + 1 && Served(run)[|Served(run[..n])|] == run[n].request
                 && Served(run)[..|Served(run[..n])|] == Served(run[..n])
            else Served(run) == Served(run[..n])
  {
  }

  /** Replies and audit log depend on the requests served, not on the time or on the timer. */
  lemma {:induction false} AnswersFollowRequests(env: Environment, identities: seq<LoadedIdentity>, start: nat,
                                                 run: seq<Event>)
    ensures var s, index := Run(env, identities, start, run), BlobIndex(identities);
            && |s.answers| == |Served(run)|
            && (forall k :: 0 <= k < |s.answers| ==>
                 s.answers[k].reply == Replies(env, identities, index, 0, Served(run))[k])
            && s.audit == AuditTrail(env, identities, index, 0, Served(run))
  {
    if run != [] {
      hide Reply, AuditRows, Served, BlobIndex, Next;
      var n, index := |run| - 1, BlobIndex(identities);
      AnswersFollowRequests(env, identities, start, run[..n]);
      StoppedIff(env, identities, start, run[..n]);
      ServedSnoc(run);
      StepAnswers(env, identities, Run(env, identities, start, run[..n]), run[n]);
      var served, longer := Served(run[..n]), Served(run);
      if run[n].Serve? && Fire !in run[..n] {
        BatchSnoc(env, identities, index, served, longer, run[n].request);
      }
      hide AuditTrail, Replies;
      assert Run(env, identities, start, run)
          == Next(env, identities, Run(env, identities, start, run[..n]), run[n]);
      hide Run;
    }
  }

  /** Only a request served adds an answer and its audit rows. */
  lemma StepAnswers(env: Environment, identities: seq<LoadedIdentity>, s: State, e: Event)
    ensures var t, n, index := Next(env, identities, s, e), |s.answers|, BlobIndex(identities);
            if e.Serve? && !s.timer.stopped
            then t.answers == s.answers + [Answer(s.timer.now, Reply(env, identities, index, n, e.request))]
                 && t.audit == s.audit + AuditRows(env, identities, index, n, e.request)
            else t.answers == s.answers && t.audit == s.audit
  {
    hide Reply, AuditRows, BlobIndex;
  }

  lemma BatchSnoc(env: Environment, identities: seq<LoadedIdentity>, index: Index, served: seq<seq<byte>>,
                  longer: seq<seq<byte>>, request: seq<byte>)
    requires |longer| == |served| + 1 && longer[|served|] == request && longer[..|served|] == served
    ensures Replies(env, identities, index, 0, longer)
         == Replies(env, identities, index, 0, served) + [Reply(env, identities, index, |served|, request)]
    ensures AuditTrail(env, identities, index, 0, longer)
         == AuditTrail(env, identities, index, 0, served) + AuditRows(env, identities, index, |served|, request)
  {
    hide Reply, AuditRows;
  }

  /** The times of the sign responses, in order. */
  ghost function SignatureTimes(answers: seq<Answer>): seq<nat> {
    if answers == [] then []
    else
      var n := |answers| - 1;
      SignatureTimes(answers[..n]) + if IsSignature(answers[n]) then [answers[n].at] else []
  }

  lemma {:induction false} SignatureTimesMembers(answers: seq<Answer>)
    ensures forall t :: t in SignatureTimes(answers) <==>
      exists k :: 0 <= k < |answers| && IsSignature(answers[k]) && answers[k].at == t
  {
    if answers != [] {
      var n := |answers| - 1;
      var front := answers[..n];
      SignatureTimesMembers(front);
      forall t
        ensures t in SignatureTimes(answers) <==>
          exists k :: 0 <= k < |answers| && IsSignature(answers[k]) && answers[k].at == t
      {
        if k :| 0 <= k < |answers| && IsSignature(answers[k]) && answers[k].at == t {
          if k < n { assert front[k] == answers[k]; }
        }
      }
    }
  }

  /** What the timer goes through in a run. */
  ghost function TimerEvents(env: Environment, identities: seq<LoadedIdentity>, start: nat,
                             run: seq<Event>): seq<IdleTimer.Event>
  {
    if run == [] then []
    else
      var n := |run| - 1;
      var before := Run(env, identities, start, run[..n]);
      TimerEvents(env, identities, start, run[..n]) +
        match run[n]
        case Serve(_) =>
          var after := Run(env, identities, start, run);
          if |after.answers| > |before.answers| && IsSignature(after.answers[|before.answers|])
          then [IdleTimer.Sign] else []
        case Consume => [IdleTimer.Consume]
        case Wait(ticks) => [IdleTimer.Wait(ticks)]
        case Fire => [IdleTimer.Fire]
  }

  /** The timer of a run is a run of the timer, whose signatures are the sign responses sent. */
  lemma {:induction false} TimerFollowsReplies(env: Environment, identities: seq<LoadedIdentity>, start: nat,
                                               run: seq<Event>)
    ensures var s := Run(env, identities, start, run);
            && s.timer == IdleTimer.Run(IdleTimer.Start(start), TimerEvents(env, identities, start, run))
            && s.timer.signs == SignatureTimes(s.answers)
  {
    hide Reply, AuditRows;
    if run != [] {
      var n := |run| - 1;
      TimerFollowsReplies(env, identities, start, run[..n]);
      var before, after := Run(env, identities, start, run[..n]), Run(env, identities, start, run);
      var events, longer := TimerEvents(env, identities, start, run[..n]), TimerEvents(env, identities, start, run);
      if longer == events {
      } else {
        assert longer[..|longer| - 1] == events;
      }
      if run[n].Serve? && !before.timer.stopped {
        assert after.answers[..|before.answers|] == before.answers;
      }
    }
  }

  /** The reply is of this kind: 14 for a sign response. */
  predicate StartsWith(reply: seq<byte>, kind: byte) {
    reply != [] && reply[0] == kind
  }

  /** Over requests alone the timer's channel holds the tokens the server queues without a timer. */
  lemma {:induction false} ServingQueuesTokens(env: Environment, identities: seq<LoadedIdentity>, start: nat,
                                               run: seq<Event>)
    requires forall k :: 0 <= k < |run| ==> run[k].Serve?
    ensures var s := Run(env, identities, start, run);
            && |s.answers| == |Served(run)| && !s.timer.stopped
            && s.timer.queued == Queued(0, SignCount(env, BlobIndex(identities), 0, Served(run)))
  {
    if run != [] {
      hide Reply, AuditRows, Signed, Served, BlobIndex;
      var n, index := |run| - 1, BlobIndex(identities);
      ServingQueuesTokens(env, identities, start, run[..n]);
      ServedSnoc(run);
      assert Fire !in run[..n];
      var before, after := Run(env, identities, start, run[..n]), Run(env, identities, start, run);
      assert after == Next(env, identities, before, run[n]);
      hide Run;
      var served, longer := Served(run[..n]), Served(run);
      ReplyIsSignResponse(env, identities, index, |served|, run[n].request);
      assert SignCount(env, index, 0, longer) == SignCount(env, index, 0, served)
                                                 + if Signed(env, index, |served|, run[n].request).Some? then 1 else 0;
      hide SignCount;
    }
  }

  /**
   No sign response was sent less than a window before now, except at this instant, and a window has
   passed since the start.
   */
  ghost predicate Idle(secs: nat, start: nat, s: State) {
    && s.timer.now >= start + secs
    && forall k :: 0 <= k < |s.answers| && StartsWith(s.answers[k].reply, 14) ==>
        !(s.answers[k].at < s.timer.now < s.answers[k].at + secs)
  }

  /**
   Whatever is requested and however the timer is scheduled: a shutdown with the channel empty means
   that for a whole window no reply was a sign response.
   */
  lemma EmptyChannelShutdownMeansIdle(env: Environment, identities: seq<LoadedIdentity>, secs: nat, start: nat,
                                      run: seq<Event>)
    requires var s := Run(env, identities, start, run);
             IdleTimer.MayFire(secs, s.timer) && s.timer.queued == 0
    ensures var s := Run(env, identities, start, run);
            && s.timer.now >= start + secs
            && forall k :: 0 <= k < |s.answers| && StartsWith(s.answers[k].reply, 14) ==>
                 s.timer.now >= s.answers[k].at + secs
  {
    hide Run, Next, TimerEvents, SignatureTimes;
    TimerFollowsReplies(env, identities, start, run);
    IdleTimer.EmptyChannelMeansIdle(secs, start, TimerEvents(env, identities, start, run));
    var s := Run(env, identities, start, run);
    SignatureTimesMembers(s.answers);
    assert forall k :: 0 <= k < |s.answers| && IsSignature(s.answers[k]) ==> s.answers[k].at in s.timer.signs;
  }

  /** A shutdown is too early exactly if a token is waiting and a sign response followed the window's start. */
  lemma EarlyShutdownIff(env: Environment, identities: seq<LoadedIdentity>, secs: nat, start: nat, run: seq<Event>)
    requires IdleTimer.MayFire(secs, Run(env, identities, start, run).timer)
    ensures var s := Run(env, identities, start, run);
            !Idle(secs, start, s) <==>
            && s.timer.queued > 0
            && exists k :: 0 <= k < |s.answers| && StartsWith(s.answers[k].reply, 14)
                           && s.timer.armedAt < s.answers[k].at < s.timer.now < s.answers[k].at + secs
  {
    hide Run, Next, TimerEvents, SignatureTimes;
    TimerFollowsReplies(env, identities, start, run);
    IdleTimer.EarlyShutdownIff(secs, start, TimerEvents(env, identities, start, run));
    var s := Run(env, identities, start, run);
    SignatureTimesMembers(s.answers);
    assert forall k :: 0 <= k < |s.answers| && IsSignature(s.answers[k]) ==> s.answers[k].at in s.timer.signs;
    if !IdleTimer.Idle(secs, start, s.timer) {
      var i :| 0 <= i < |s.timer.signs| && s.timer.armedAt < s.timer.signs[i] < s.timer.now < s.timer.signs[i] + secs;
      assert s.timer.signs[i] in SignatureTimes(s.answers);
    }
  }
}
