/** Why a turn's loop stops, which steps mean that the agent works or has ended, and what statistics and errors the turn
    leaves, in terms of the events, the other threads and the clock. */
module TurnExits {
  import opened Wrappers
  import opened Collections
  import opened TurnHandoff

  // ----- marks

  /** The reply answers a request for statistics: the outstanding one, or one of an earlier turn. */
  ghost predicate AboutStats(outstanding: Option<Id>, event: Event) {
    event.Response? && (event.statsCommand || (outstanding.Some? && event.id == outstanding))
  }

  /** The agent starts, or accepts a request that was registered and has been neither answered nor given up since. */
  ghost predicate SaysBegan(c: Config, start: Turn, steps: seq<Step>, i: nat)
    requires i < |steps|
  {
    && c.rpcAgent && steps[i].Receive?
    && var event := steps[i].event;
       || event.AgentStart? || event.TurnStart?
       || (event.Response? && !AboutStats(Run(c, start, steps[..i]).stats.pending, event)
           && event.success == Accepted && !event.handled
           && exists id :: event.id == Some(id) && OpenBefore(c, start, steps, i, id))
  }

  /** The agent settles, or rejects the initial prompt. */
  ghost predicate SaysEnded(c: Config, start: Turn, steps: seq<Step>, i: nat)
    requires i < |steps|
  {
    && c.rpcAgent && steps[i].Receive?
    && var event := steps[i].event;
       || event.AgentSettled?
       || (event.Response? && !AboutStats(Run(c, start, steps[..i]).stats.pending, event)
           && event.id == Some(c.initialId) && event.success == Rejected)
  }

  lemma AboutStatsIff(stats: Stats, event: Event)
    ensures stats.Takes(event) <==> AboutStats(stats.pending, event)
  {}

  /** What a step says about the agent. */
  lemma MarkIff(c: Config, start: Turn, steps: seq<Step>, i: nat)
    requires Fresh(start) && i < |steps|
    ensures MarkAt(c, start, steps, i) == Began <==> SaysBegan(c, start, steps, i)
    ensures MarkAt(c, start, steps, i) == Ended <==> SaysEnded(c, start, steps, i)
  {
    var t := Run(c, start, steps[..i]);
    if steps[i].Receive? && steps[i].event.Response? {
      AboutStatsIff(t.stats, steps[i].event);
      if steps[i].event.id.Some? {
        PendingIff(c, start, steps[..i], steps[i].event.id.value);
      }
    }
  }

  /** A request is closed by being given up, or by a reply to it that is not about statistics. */
  lemma ClosesIff(c: Config, start: Turn, steps: seq<Step>, i: nat, id: Id)
    requires i < |steps|
    ensures Closes(c, start, steps, i, id) <==>
            || steps[i] == Forget(id)
            || (c.rpcAgent && steps[i].Receive? && steps[i].event.Response? && steps[i].event.id == Some(id)
                && !AboutStats(Run(c, start, steps[..i]).stats.pending, steps[i].event))
  {}

  // ----- the exits

  /** The agent ended at step `i`, has not begun since, and the delay has passed: none for a partitioner, half a second
      for other roles, and a second more while statistics are outstanding. */
  ghost predicate SettledSince(c: Config, start: Turn, steps: seq<Step>, i: nat) {
    && i < |steps| && SaysEnded(c, start, steps, i)
    && (forall j :: i < j < |steps| ==> !SaysBegan(c, start, steps, j) && !SaysEnded(c, start, steps, j))
    && var delay := (if c.role == Partitioner then 0 else 500) + (if Run(c, start, steps).stats.pending == None then 0 else 1000);
       Elapsed(steps) - Elapsed(steps[..i]) > delay
  }

  /** The handoff is due: no request is open, and the agent settled long enough ago. */
  ghost predicate Due(c: Config, start: Turn, steps: seq<Step>) {
    c.rpcAgent && NothingOpen(c, start, steps) && exists i :: SettledSince(c, start, steps, i)
  }

  lemma SettledSinceIff(c: Config, start: Turn, steps: seq<Step>, i: nat)
    requires Fresh(start)
    ensures SettledSince(c, start, steps, i) <==> EndedLongEnough(c, start, steps, i)
  {
    forall j: nat | j < |steps|
      ensures MarkAt(c, start, steps, j) == Began <==> SaysBegan(c, start, steps, j)
      ensures MarkAt(c, start, steps, j) == Ended <==> SaysEnded(c, start, steps, j)
    {
      MarkIff(c, start, steps, j);
    }
  }

  lemma DueIff(c: Config, start: Turn, steps: seq<Step>)
    requires Fresh(start)
    ensures Leaves(c, Run(c, start, steps)) <==> Due(c, start, steps)
  {
    LeavesIff(c, start, steps);
    forall i: nat
      ensures SettledSince(c, start, steps, i) <==> EndedLongEnough(c, start, steps, i)
    {
      SettledSinceIff(c, start, steps, i);
    }
  }

  /** Round `r` woke up quiet and saw that the child had exited; no round before it did. */
  ghost predicate FirstSeenExited(rounds: seq<Round>, r: nat) {
    && r < |rounds| && rounds[r].wake == Quiet(true)
    && forall q :: 0 <= q < r ==> rounds[q].wake != Quiet(true)
  }

  /** The last round found the pipes closed and the child exited, or was quiet more than two seconds after the round
      that first saw the exit. */
  ghost predicate ChildLeft(rounds: seq<Round>) {
    && rounds != []
    && var last := rounds[|rounds| - 1].wake;
       || last == Disconnected(true)
       || (last.Quiet? && exists r: nat :: FirstSeenExited(rounds, r)
                                           && Elapsed(Passed(rounds)) - Elapsed(Passed(rounds[..r + 1])) > 2000)
  }

  /** The exit was first seen in round `r`, at this time; if `r` is negative it was not seen. */
  ghost predicate Sees(start: Turn, rounds: seq<Round>, r: int, seen: Option<nat>) {
    if r < 0 then seen == None && forall q :: 0 <= q < |rounds| ==> rounds[q].wake != Quiet(true)
    else FirstSeenExited(rounds, r) && seen == Some(start.clock + Elapsed(Passed(rounds[..r + 1])))
  }

  lemma SeesNext(start: Turn, first: seq<Round>, last: Round, r: int, seen: Option<nat>, clock: nat) returns (now: int)
    requires Sees(start, first, r, seen) && clock == start.clock + Elapsed(Passed(first + [last]))
    ensures Sees(start, first + [last], now, Noted(seen, last.wake, clock))
  {
    var rounds := first + [last];
    now := r;
    if r >= 0 {
      assert first[..r + 1] == rounds[..r + 1];
    } else if last.wake == Quiet(true) {
      now := |first|;
      assert rounds[..|first| + 1] == rounds;
    }
  }

  lemma {:induction false} ExitSeenIs(c: Config, start: Turn, rounds: seq<Round>) returns (r: int)
    ensures Sees(start, rounds, r, ExitSeen(c, start, rounds))
  {
    r := -1;
    if rounds != [] {
      var n := |rounds| - 1;
      r := ExitSeenIs(c, start, rounds[..n]);
      ClockIs(c, start, Passed(rounds));
      assert rounds == rounds[..n] + [rounds[n]];
      r := SeesNext(start, rounds[..n], rounds[n], r, ExitSeen(c, start, rounds[..n]), AfterRounds(c, start, rounds).clock);
    }
  }

  lemma FirstSeenUnique(rounds: seq<Round>, r: nat, q: nat)
    requires FirstSeenExited(rounds, r) && FirstSeenExited(rounds, q)
    ensures r == q
  {}

  /** When a round ends the loop because the child is gone. */
  lemma GoneIff(c: Config, start: Turn, rounds: seq<Round>)
    ensures Gone(c, start, rounds) <==> ChildLeft(rounds)
  {
    if rounds != [] {
      var r := ExitSeenIs(c, start, rounds);
      ClockIs(c, start, Passed(rounds));
      forall q: nat | FirstSeenExited(rounds, q)
        ensures q == r
      {
        if r >= 0 {
          FirstSeenUnique(rounds, r, q);
        }
      }
    }
  }

  /** Why the loop stops: a child that is gone first; then a handoff that is due, whatever the deadline; then the
      deadline. */
  lemma StopsIff(c: Config, start: Turn, deadline: Option<nat>, rounds: seq<Round>)
    requires Fresh(start)
    ensures Stops(c, start, deadline, rounds) == Some(ChildGone) <==> ChildLeft(rounds)
    ensures Stops(c, start, deadline, rounds) == Some(HandedOff) <==> !ChildLeft(rounds) && Due(c, start, Passed(rounds))
    ensures Stops(c, start, deadline, rounds) == Some(TimedOut) <==>
              && !ChildLeft(rounds) && !Due(c, start, Passed(rounds))
              && exists limit :: deadline == Some(limit) && start.clock + Elapsed(Passed(rounds)) >= limit
  {
    GoneIff(c, start, rounds);
    DueIff(c, start, Passed(rounds));
    ClockIs(c, start, Passed(rounds));
  }

  /** What the loop returns: the reason of the first round that has one. */
  lemma LoopIs(c: Config, start: Turn, deadline: Option<nat>, rounds: seq<Round>, reason: Option<Reason>, n: nat)
    requires Fresh(start) && n <= |rounds| && reason == Stops(c, start, deadline, rounds[..n])
    requires forall r :: 0 <= r < n ==> Stops(c, start, deadline, rounds[..r]) == None
    ensures forall r :: 0 <= r < n ==> !ChildLeft(rounds[..r]) && !Due(c, start, Passed(rounds[..r]))
    ensures reason == Some(HandedOff) <==> !ChildLeft(rounds[..n]) && Due(c, start, Passed(rounds[..n]))
  {
    forall r: nat | r < n
      ensures !ChildLeft(rounds[..r]) && !Due(c, start, Passed(rounds[..r]))
    {
      StopsIff(c, start, deadline, rounds[..r]);
    }
    StopsIff(c, start, deadline, rounds[..n]);
  }

  // ----- statistics

  /** An event after which the session's statistics are out of date. */
  ghost predicate IsNews(event: Event) {
    || event.AgentSettled? || event.AssistantEnd? || event.OtherMessageEnd? || event.TurnEnd?
    || event == OtherEvent(true)
  }

  /** At step `i` a request for statistics goes out, and none is outstanding beside it. */
  ghost predicate Requests(c: Config, start: Turn, steps: seq<Step>, i: nat) {
    && i < |steps| && steps[i].Receive? && steps[i].newId.Some?
    && Run(c, start, steps[..i + 1]).stats.pending == steps[i].newId
    && (Run(c, start, steps[..i]).stats.pending.Some? ==>
         steps[i].event.Response? && steps[i].event.id == Run(c, start, steps[..i]).stats.pending)
  }

  lemma StaysDisabled(c: Config, t: Turn, step: Step)
    requires !t.stats.enabled && t.stats.pending == None
    ensures Next(c, t, step).stats == t.stats
  {}

  lemma {:induction false} EnabledBefore(c: Config, start: Turn, steps: seq<Step>, n: nat)
    requires start.stats.enabled && !start.stats.dirty && n <= |steps| && Run(c, start, steps).stats.enabled
    ensures Run(c, start, steps[..n]).stats.enabled
    decreases |steps|
  {
    if n < |steps| {
      var init := steps[..|steps| - 1];
      DisabledIsIdle(c, start, init);
      EnabledBefore(c, start, init, n);
      assert init[..n] == steps[..n];
    } else {
      TakeAll(steps);
    }
  }

  lemma {:induction false} DisabledIsIdle(c: Config, start: Turn, steps: seq<Step>)
    requires start.stats.enabled && !start.stats.dirty
    ensures !Run(c, start, steps).stats.enabled ==> Run(c, start, steps).stats.pending == None
    ensures Run(c, start, steps).stats.dirty ==> Run(c, start, steps).stats.pending.Some?
  {
    if steps != [] {
      DisabledIsIdle(c, start, steps[..|steps| - 1]);
    }
  }

  /** The news of step `i` is covered: a request went out then or later, or it is owed by the outstanding one. */
  ghost predicate Covered(c: Config, start: Turn, steps: seq<Step>, i: nat) {
    || (exists j :: i <= j && Requests(c, start, steps, j))
    || (Run(c, start, steps).stats.pending.Some? && Run(c, start, steps).stats.dirty)
  }

  /** No news is missed: as long as statistics are enabled, every change is followed by a request, at once or when the
      outstanding one is answered; there is never more than one. */
  lemma {:induction false} NewsIsCovered(c: Config, start: Turn, steps: seq<Step>, i: nat)
    requires start.stats.enabled && !start.stats.dirty && Run(c, start, steps).stats.enabled
    requires i < |steps| && steps[i].Receive? && IsNews(steps[i].event)
    ensures Covered(c, start, steps, i)
    decreases |steps|
  {
    var n := |steps| - 1;
    var init := steps[..n];
    EnabledBefore(c, start, steps, n);
    DisabledIsIdle(c, start, init);
    TakeAll(steps);
    assert steps[..n + 1] == steps;
    if i == n {
      if Run(c, start, init).stats.pending == None {
        assert Requests(c, start, steps, n);
      }
    } else {
      NewsIsCovered(c, start, init, i);
      if j: nat :| i <= j && Requests(c, start, init, j) {
        assert init[..j] == steps[..j] && init[..j + 1] == steps[..j + 1];
        assert Requests(c, start, steps, j);
      } else {
        OwedKept(c, start, steps);
      }
    }
  }

  /** What the outstanding request owes is still owed after one more step, or a request goes out. */
  lemma OwedKept(c: Config, start: Turn, steps: seq<Step>)
    requires steps != [] && Run(c, start, steps).stats.enabled
    requires var before := Run(c, start, steps[..|steps| - 1]).stats; before.pending.Some? && before.dirty && before.enabled
    ensures Requests(c, start, steps, |steps| - 1) || (Run(c, start, steps).stats.pending.Some? && Run(c, start, steps).stats.dirty)
  {
    TakeAll(steps);
    assert steps[..|steps| - 1 + 1] == steps;
  }

  /** Statistics are given up only by a refused or foreign answer to the outstanding request, or when a request cannot
      be sent. */
  lemma GivenUpOnly(c: Config, t: Turn, step: Step)
    requires t.stats.enabled && !Next(c, t, step).stats.enabled
    ensures step.Receive?
    ensures || (step.event.Response? && t.stats.pending.Some? && step.event.id == t.stats.pending
                && (step.event.success != Accepted || !step.event.statsCommand))
            || step.newId == None
  {}

  // ----- errors

  /** The last of the errors is the one reported. */
  lemma {:induction false} FirstErrorIff(errors: seq<Option<string>>, text: string)
    ensures FirstError(errors) == Some(text) <==> exists k :: ReportedAt(errors, text, k)
  {
    if errors != [] {
      var n := |errors| - 1;
      FirstErrorIff(errors[..n], text);
      if errors[n].Some? {
        assert ReportedAt(errors, text, n) <==> errors[n] == Some(text);
      } else {
        if k: nat :| ReportedAt(errors[..n], text, k) {
          assert ReportedAt(errors, text, k);
        }
        if k: nat :| ReportedAt(errors, text, k) {
          assert ReportedAt(errors[..n], text, k);
        }
      }
    }
  }

  ghost predicate ReportedAt(errors: seq<Option<string>>, text: string, k: nat) {
    k < |errors| && errors[k] == Some(text) && forall j :: k < j < |errors| ==> errors[j] == None
  }

  /** An event that sets the error anew, or clears it. */
  ghost predicate Overrides(c: Config, step: Step) {
    step.Receive?
    && (step.event.AssistantEnd? || step.event.ErrorEvent?
        || (c.rpcAgent && step.event.Response? && step.event.id == Some(c.initialId) && step.event.success == Rejected))
  }

  /** The error an event brings if there is none yet. */
  ghost function Brings(step: Step): Option<string> {
    if step.Receive? && step.event.TurnEnd? then step.event.errorMessage
    else if step.Receive? && step.event.AgentEnd? then FirstError(step.event.errors)
    else None
  }

  /** Without an event that sets it anew, the first error stays. */
  lemma {:induction false} FirstErrorStays(c: Config, start: Turn, steps: seq<Step>)
    requires forall i :: 0 <= i < |steps| ==> !Overrides(c, steps[i])
    ensures Run(c, start, steps).finalText == start.finalText
    ensures start.agentError.Some? ==> Run(c, start, steps).agentError == start.agentError
    ensures start.agentError == None && (forall i :: 0 <= i < |steps| ==> Brings(steps[i]) == None) ==>
              Run(c, start, steps).agentError == None
    ensures start.agentError == None ==> forall i :: FirstToBring(steps, i) ==> Run(c, start, steps).agentError == Brings(steps[i])
  {
    if steps != [] {
      var n := |steps| - 1;
      var init := steps[..n];
      FirstErrorStays(c, start, init);
      if start.agentError == None {
        forall i: nat | FirstToBring(steps, i)
          ensures Run(c, start, steps).agentError == Brings(steps[i])
        {
          if i < n {
            assert FirstToBring(init, i);
          } else {
            assert forall k :: 0 <= k < |init| ==> Brings(init[k]) == None;
          }
        }
      }
    }
  }

  ghost predicate FirstToBring(steps: seq<Step>, i: int) {
    0 <= i < |steps| && Brings(steps[i]).Some? && forall k :: 0 <= k < i ==> Brings(steps[k]) == None
  }

  /** An event that sets the error: a failed message its own or a stock text, a good one none, an error event its text,
      and the rejection of the initial prompt its own or a stock text. */
  lemma OverrideIs(c: Config, t: Turn, step: Step)
    requires Overrides(c, step) && !(step.event.Response? && AboutStats(t.stats.pending, step.event))
    ensures Next(c, t, step).agentError ==
            match step.event
            case AssistantEnd(_, failed, message) =>
              if !failed then None else if message.Some? then message else Some("Pi assistant failed")
            case ErrorEvent(text) => Some(text)
            case Response(_, _, _, _, error) => if error.Some? then error else Some("Pi rejected the initial prompt")
            case _ => None
    ensures Next(c, t, step).finalText == if step.event.AssistantEnd? then step.event.text else t.finalText
  {
    AboutStatsIff(t.stats, step.event);
  }
}
