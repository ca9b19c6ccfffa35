/** The handoff of a turn: when the loop of `run_turn` may leave a settled agent, while other threads steer it.

    A run is a list of steps: a message from the agent, a steer registering or giving up its request, or time
    passing. `Turn` is what the loop and its steers share. */
module TurnHandoff {
  import opened Collections
  import opened Wrappers

  type Id = string

  datatype Role = Partitioner | OtherRole

  datatype Config = Config(rpcAgent: bool, role: Role, initialId: Id)

  datatype Success = Accepted | Rejected | Unknown

  datatype Event =
    | AgentStart
    | TurnStart
    | AgentSettled
    | Response(id: Option<Id>, success: Success, statsCommand: bool, handled: bool, error: Option<string>)
    | AssistantEnd(text: string, failed: bool, errorMessage: Option<string>)
    | OtherMessageEnd
    | TurnEnd(errorMessage: Option<string>)
    | AgentEnd(errors: seq<Option<string>>)
    | ErrorEvent(text: string)
    | OtherEvent(advances: bool)

  /** A request for context statistics: at most one outstanding, and one more when something changed meanwhile. */
  datatype Stats = Stats(enabled: bool, pending: Option<Id>, dirty: bool) {
    function Changed(newId: Option<Id>): Stats {
      if !enabled then this
      else if pending.Some? then this.(dirty := true)
      else if newId.Some? then this.(pending := newId)
      else this.(enabled := false)
    }

    /** The event answers a request for statistics, this one's or an earlier turn's. */
    predicate Takes(event: Event) {
      event.Response? && ((pending.Some? && event.id == pending) || event.statsCommand)
    }

    function Answered(event: Event, newId: Option<Id>): Stats
      requires Takes(event)
    {
      if pending == None || event.id != pending then this
      else if event.success != Accepted || !event.statsCommand then Stats(false, None, false)
      else if dirty then Stats(enabled, None, false).Changed(newId)
      else Stats(enabled, None, false)
    }
  }

  predicate Advances(event: Event) {
    match event
    case AgentSettled | AssistantEnd(_, _, _) | OtherMessageEnd | TurnEnd(_) => true
    case OtherEvent(advances) => advances
    case _ => false
  }

  datatype Turn = Turn(
    agentEnded: Option<nat>,
    agentError: Option<string>,
    finalText: string,
    pending: set<Id>,
    stats: Stats,
    clock: nat)

  datatype Step =
    | Register(id: Id)
    | Forget(id: Id)
    | Receive(event: Event, newId: Option<Id>)
    | Wait(ms: nat)

  function FirstError(errors: seq<Option<string>>): Option<string> {
    if errors == [] then None
    else if errors[|errors| - 1].Some? then errors[|errors| - 1]
    else FirstError(errors[..|errors| - 1])
  }

  predicate RejectsInitial(c: Config, event: Event) {
    event.Response? && event.id == Some(c.initialId) && event.success == Rejected
  }

  /** A reply that accepts a pending request which will start a turn of its own. */
  predicate AcceptsPending(pending: set<Id>, event: Event) {
    event.Response? && event.id.Some? && event.id.value in pending && event.success == Accepted && !event.handled
  }

  function Reply(c: Config, t: Turn, event: Event): Turn
    requires event.Response?
  {
    var rejected := RejectsInitial(c, event);
    t.(agentError := if rejected then Some(event.error.GetOr("Pi rejected the initial prompt")) else t.agentError,
       agentEnded := if AcceptsPending(t.pending, event) then None else if rejected then Some(t.clock) else t.agentEnded,
       pending := if event.id.Some? then t.pending - {event.id.value} else t.pending)
  }

  function Handle(c: Config, t: Turn, event: Event): Turn {
    match event
    case AgentStart | TurnStart => if c.rpcAgent then t.(agentEnded := None) else t
    case AgentSettled => if c.rpcAgent then t.(agentEnded := Some(t.clock)) else t
    case Response(_, _, _, _, _) => if c.rpcAgent then Reply(c, t, event) else t
    case AssistantEnd(text, failed, errorMessage) =>
      t.(finalText := text, agentError := if failed then Some(errorMessage.GetOr("Pi assistant failed")) else None)
    case TurnEnd(error) => if t.agentError == None then t.(agentError := error) else t
    case AgentEnd(errors) => if t.agentError == None then t.(agentError := FirstError(errors)) else t
    case ErrorEvent(text) => t.(agentError := Some(text))
    case OtherMessageEnd | OtherEvent(_) => t
  }

  function Next(c: Config, t: Turn, step: Step): Turn {
    match step
    case Register(id) => t.(pending := t.pending + {id})
    case Forget(id) => t.(pending := t.pending - {id})
    case Wait(ms) => t.(clock := t.clock + ms)
    case Receive(event, newId) =>
      if t.stats.Takes(event) then t.(stats := t.stats.Answered(event, newId))
      else Handle(c, if Advances(event) then t.(stats := t.stats.Changed(newId)) else t, event)
  }

  function Run(c: Config, start: Turn, steps: seq<Step>): Turn {
    if steps == [] then start else Next(c, Run(c, start, steps[..|steps| - 1]), steps[|steps| - 1])
  }

  function Handoff(c: Config): nat {
    if c.role == Partitioner then 0 else 500
  }

  predicate EndedFor(t: Turn, ms: nat) {
    t.agentEnded.Some? && t.clock - t.agentEnded.value > ms
  }

  /** The loop leaves a settled agent here. */
  predicate Leaves(c: Config, t: Turn) {
    && c.rpcAgent && EndedFor(t, Handoff(c)) && t.pending == {}
    && (t.stats.pending == None || EndedFor(t, Handoff(c) + 1000))
  }

  // ----- what the steps mean, without the state the loop keeps

  datatype Mark = Began | Ended | Unmarked

  /** What a step says about the agent: it works, it has ended, or nothing. */
  ghost function MarkOf(c: Config, t: Turn, step: Step): Mark {
    if !step.Receive? || !c.rpcAgent || t.stats.Takes(step.event) then Unmarked
    else if step.event.AgentStart? || step.event.TurnStart? || AcceptsPending(t.pending, step.event) then Began
    else if step.event.AgentSettled? || RejectsInitial(c, step.event) then Ended
    else Unmarked
  }

  ghost function MarkAt(c: Config, start: Turn, steps: seq<Step>, i: nat): Mark
    requires i < |steps|
  {
    MarkOf(c, Run(c, start, steps[..i]), steps[i])
  }

  function Elapsed(steps: seq<Step>): nat {
    if steps == [] then 0
    else Elapsed(steps[..|steps| - 1]) + match steps[|steps| - 1] case Wait(ms) => ms case _ => 0
  }

  /** Step `i` is the last to say anything about the agent, and it says `mark`. */
  ghost predicate LastMark(c: Config, start: Turn, steps: seq<Step>, i: nat, mark: Mark) {
    && i < |steps| && mark != Unmarked && MarkAt(c, start, steps, i) == mark
    && forall j :: i < j < |steps| ==> MarkAt(c, start, steps, j) == Unmarked
  }

  ghost predicate Fresh(t: Turn) {
    t.agentEnded == None && t.pending == {}
  }

  lemma MarkedBefore(c: Config, start: Turn, steps: seq<Step>, i: nat)
    requires i + 1 < |steps|
    ensures MarkAt(c, start, steps[..|steps| - 1], i) == MarkAt(c, start, steps, i)
  {
    assert steps[..|steps| - 1][..i] == steps[..i];
  }

  lemma LastMarkKept(c: Config, start: Turn, steps: seq<Step>, i: nat, mark: Mark)
    requires steps != [] && LastMark(c, start, steps[..|steps| - 1], i, mark)
    requires MarkAt(c, start, steps, |steps| - 1) == Unmarked
    ensures LastMark(c, start, steps, i, mark)
  {
    MarkedBefore(c, start, steps, i);
    forall j | i < j < |steps|
      ensures MarkAt(c, start, steps, j) == Unmarked
    {
      if j < |steps| - 1 {
        MarkedBefore(c, start, steps, j);
      }
    }
  }

  lemma {:induction false} ClockIs(c: Config, start: Turn, steps: seq<Step>)
    ensures Run(c, start, steps).clock == start.clock + Elapsed(steps)
  {
    if steps != [] {
      ClockIs(c, start, steps[..|steps| - 1]);
    }
  }

  /** The loop counts the agent as ended since the step that last said so, and no other step says otherwise later. */
  ghost predicate EndedSince(c: Config, start: Turn, steps: seq<Step>, i: nat) {
    && LastMark(c, start, steps, i, Ended)
    && Run(c, start, steps).agentEnded == Some(start.clock + Elapsed(steps[..i]))
  }

  lemma {:induction false} EndedAt(c: Config, start: Turn, steps: seq<Step>) returns (i: nat)
    requires Fresh(start) && Run(c, start, steps).agentEnded.Some?
    ensures EndedSince(c, start, steps, i)
  {
    var init, last := steps[..|steps| - 1], steps[|steps| - 1];
    var before := Run(c, start, init);
    ClockIs(c, start, init);
    if MarkOf(c, before, last) == Ended {
      i := |steps| - 1;
    } else {
      assert MarkOf(c, before, last) == Unmarked && before.agentEnded == Run(c, start, steps).agentEnded;
      i := EndedAt(c, start, init);
      assert init[..i] == steps[..i];
      LastMarkKept(c, start, steps, i, Ended);
    }
  }

  lemma {:induction false} NotEndedAt(c: Config, start: Turn, steps: seq<Step>, i: nat)
    requires LastMark(c, start, steps, i, Ended)
    ensures Run(c, start, steps).agentEnded == Some(start.clock + Elapsed(steps[..i]))
  {
    var init, last := steps[..|steps| - 1], steps[|steps| - 1];
    if i == |steps| - 1 {
      ClockIs(c, start, init);
    } else {
      assert MarkAt(c, start, steps, |steps| - 1) == Unmarked;
      forall j | i <= j < |init|
        ensures MarkAt(c, start, init, j) == MarkAt(c, start, steps, j)
      {
        MarkedBefore(c, start, steps, j);
      }
      NotEndedAt(c, start, init, i);
      assert init[..i] == steps[..i];
    }
  }

  // ----- requests

  /** A reply to request `id` that reaches the loop's own handling. */
  ghost predicate Replies(c: Config, t: Turn, step: Step, id: Id) {
    step.Receive? && c.rpcAgent && step.event.Response? && step.event.id == Some(id) && !t.stats.Takes(step.event)
  }

  ghost predicate Closes(c: Config, start: Turn, steps: seq<Step>, i: nat, id: Id)
    requires i < |steps|
  {
    steps[i] == Forget(id) || Replies(c, Run(c, start, steps[..i]), steps[i], id)
  }

  ghost predicate OpenSince(c: Config, start: Turn, steps: seq<Step>, i: nat, id: Id) {
    && i < |steps| && steps[i] == Register(id)
    && forall j :: i < j < |steps| ==> !Closes(c, start, steps, j, id)
  }

  lemma PendingStep(c: Config, t: Turn, step: Step, id: Id)
    ensures id in Next(c, t, step).pending <==>
            step == Register(id) || (id in t.pending && step != Forget(id) && !Replies(c, t, step, id))
  {}

  lemma ClosesBefore(c: Config, start: Turn, steps: seq<Step>, i: nat, id: Id)
    requires i + 1 < |steps|
    ensures Closes(c, start, steps[..|steps| - 1], i, id) <==> Closes(c, start, steps, i, id)
  {
    assert steps[..|steps| - 1][..i] == steps[..i];
  }

  lemma OpenStep(c: Config, start: Turn, steps: seq<Step>, i: nat, id: Id)
    requires steps != []
    ensures var n := |steps| - 1;
            OpenSince(c, start, steps, i, id) <==>
            if i == n then steps[n] == Register(id)
            else OpenSince(c, start, steps[..n], i, id) && !Closes(c, start, steps, n, id)
  {
    var init := steps[..|steps| - 1];
    forall j | 0 <= j < |init|
      ensures Closes(c, start, init, j, id) <==> Closes(c, start, steps, j, id)
    {
      ClosesBefore(c, start, steps, j, id);
    }
  }

  /** A request is pending exactly when it was registered and has been neither answered nor given up since. */
  lemma {:induction false} PendingIff(c: Config, start: Turn, steps: seq<Step>, id: Id)
    requires Fresh(start)
    ensures id in Run(c, start, steps).pending <==> exists i :: OpenSince(c, start, steps, i, id)
  {
    if steps != [] {
      var n := |steps| - 1;
      PendingIff(c, start, steps[..n], id);
      PendingStep(c, Run(c, start, steps[..n]), steps[n], id);
      forall i: nat
        ensures OpenSince(c, start, steps, i, id) <==>
                if i == n then steps[n] == Register(id)
                else OpenSince(c, start, steps[..n], i, id) && !Closes(c, start, steps, n, id)
      {
        OpenStep(c, start, steps, i, id);
      }
      if steps[n] == Register(id) {
        assert OpenSince(c, start, steps, n, id);
      } else if id in Run(c, start, steps).pending {
        var i :| OpenSince(c, start, steps[..n], i, id);
        assert OpenSince(c, start, steps, i, id);
      }
    }
  }

  // ----- the theorems

  ghost predicate NothingOpen(c: Config, start: Turn, steps: seq<Step>) {
    forall i, id :: !OpenSince(c, start, steps, i, id)
  }

  lemma NothingOpenIff(c: Config, start: Turn, steps: seq<Step>)
    requires Fresh(start)
    ensures NothingOpen(c, start, steps) <==> Run(c, start, steps).pending == {}
  {
    var pending := Run(c, start, steps).pending;
    if pending != {} {
      var id :| id in pending;
      PendingIff(c, start, steps, id);
    }
    if i, id :| OpenSince(c, start, steps, i, id) {
      PendingIff(c, start, steps, id);
    }
  }

  /** When the loop leaves, no request is pending, and the last word about the agent is that it has ended, long enough ago. */
  lemma LeavesIff(c: Config, start: Turn, steps: seq<Step>)
    requires Fresh(start)
    ensures Leaves(c, Run(c, start, steps)) <==>
            c.rpcAgent && NothingOpen(c, start, steps) && exists i :: EndedLongEnough(c, start, steps, i)
  {
    var t := Run(c, start, steps);
    ClockIs(c, start, steps);
    NothingOpenIff(c, start, steps);
    if t.agentEnded.Some? {
      var i := EndedAt(c, start, steps);
      if Leaves(c, t) {
        assert EndedLongEnough(c, start, steps, i);
      }
    }
    forall i: nat | EndedLongEnough(c, start, steps, i)
      ensures EndedFor(t, Handoff(c)) && (t.stats.pending == None || EndedFor(t, Handoff(c) + 1000))
    {
      NotEndedAt(c, start, steps, i);
    }
  }

  ghost predicate EndedLongEnough(c: Config, start: Turn, steps: seq<Step>, i: nat) {
    && LastMark(c, start, steps, i, Ended)
    && var since := Elapsed(steps) - Elapsed(steps[..i]);
       since > Handoff(c) && (Run(c, start, steps).stats.pending == None || since > Handoff(c) + 1000)
  }

  /** The reply at step `i` accepts request `id`, and the turn it starts is still to come. */
  ghost predicate AcceptedAt(c: Config, start: Turn, steps: seq<Step>, i: nat, id: Id) {
    && i < |steps| && Replies(c, Run(c, start, steps[..i]), steps[i], id)
    && steps[i].event.success == Accepted && !steps[i].event.handled
  }

  /** Request `id` was registered before step `i`, and neither answered nor given up between. */
  ghost predicate OpenBefore(c: Config, start: Turn, steps: seq<Step>, i: nat, id: Id) {
    i <= |steps| && exists k :: OpenSince(c, start, steps[..i], k, id)
  }

  /** An acceptance reopens the turn exactly when its request is still open. */
  lemma AcceptanceReopensIff(c: Config, start: Turn, steps: seq<Step>, i: nat, id: Id)
    requires Fresh(start) && AcceptedAt(c, start, steps, i, id)
    ensures MarkAt(c, start, steps, i) == if OpenBefore(c, start, steps, i, id) then Began else Unmarked
  {
    PendingIff(c, start, steps[..i], id);
  }

  lemma MarkInPrefix(c: Config, start: Turn, steps: seq<Step>, n: nat, i: nat)
    requires i < n <= |steps|
    ensures MarkAt(c, start, steps[..n], i) == MarkAt(c, start, steps, i)
  {
    assert steps[..n][..i] == steps[..i];
  }

  /** A steer accepted while its request is open is not cut off: when the loop leaves, the agent has ended since. */
  lemma AcceptedSteerNotCutOff(c: Config, start: Turn, steps: seq<Step>, i: nat, id: Id)
    requires Fresh(start) && Leaves(c, Run(c, start, steps))
    requires AcceptedAt(c, start, steps, i, id) && OpenBefore(c, start, steps, i, id)
    ensures exists k :: i < k < |steps| && MarkAt(c, start, steps, k) == Ended
  {
    AcceptanceReopensIff(c, start, steps, i, id);
    var k := EndedAt(c, start, steps);
  }

  /** After `more` the loop leaves, and the agent has not ended since `sofar`. */
  ghost predicate LeavesUnended(c: Config, start: Turn, sofar: seq<Step>, more: seq<Step>) {
    && Leaves(c, Run(c, start, sofar + more))
    && forall k :: |sofar| <= k < |sofar + more| ==> MarkAt(c, start, sofar + more, k) != Ended
  }

  /** However the run goes on, the loop waits for the agent to end. */
  ghost predicate WaitsForEnd(c: Config, start: Turn, sofar: seq<Step>) {
    forall more :: !LeavesUnended(c, start, sofar, more)
  }

  ghost predicate HasEnded(c: Config, start: Turn, steps: seq<Step>) {
    exists k :: LastMark(c, start, steps, k, Ended)
  }

  lemma LastMarkInPrefix(c: Config, start: Turn, steps: seq<Step>, n: nat, i: nat)
    requires i < n <= |steps| && LastMark(c, start, steps, i, Ended)
    ensures LastMark(c, start, steps[..n], i, Ended)
  {
    forall j | i <= j < n
      ensures MarkAt(c, start, steps[..n], j) == MarkAt(c, start, steps, j)
    {
      MarkInPrefix(c, start, steps, n, j);
    }
  }

  /** The loop is bound to wait exactly when it does not count the agent as ended. */
  lemma WaitsForEndIff(c: Config, start: Turn, steps: seq<Step>)
    requires Fresh(start) && c.rpcAgent
    ensures WaitsForEnd(c, start, steps) <==> !HasEnded(c, start, steps)
  {
    if !WaitsForEnd(c, start, steps) {
      var more :| LeavesUnended(c, start, steps, more);
      var k := EndedAt(c, start, steps + more);
      FrontOf(steps, more);
      LastMarkInPrefix(c, start, steps + more, |steps|, k);
    }
    if k: nat :| LastMark(c, start, steps, k, Ended) {
      var more := GiveUpAll(c, start, steps, k);
      assert LeavesUnended(c, start, steps, more);
    }
  }

  lemma OneMore(c: Config, start: Turn, steps: seq<Step>, step: Step)
    ensures Run(c, start, steps + [step]) == Next(c, Run(c, start, steps), step)
    ensures MarkAt(c, start, steps + [step], |steps|) == MarkOf(c, Run(c, start, steps), step)
  {
    FrontOf(steps, [step]);
  }

  /** If all requests still open are given up and time passes, the loop leaves an agent that has ended. */
  lemma {:induction false} GiveUpAll(c: Config, start: Turn, steps: seq<Step>, k: nat) returns (more: seq<Step>)
    requires Fresh(start) && c.rpcAgent && LastMark(c, start, steps, k, Ended)
    ensures LeavesUnended(c, start, steps, more)
    decreases |Run(c, start, steps).pending|
  {
    var t := Run(c, start, steps);
    var step;
    if t.pending == {} {
      step := Wait(Handoff(c) + 1001);
      more := [step];
      NothingOpenIff(c, start, steps);
      SettledEventuallyLeaves(c, start, steps, k, Handoff(c) + 1001);
      OneMore(c, start, steps, step);
    } else {
      var id :| id in t.pending;
      step := Forget(id);
      OneMore(c, start, steps, step);
      FrontOf(steps, [step]);
      LastMarkKept(c, start, steps + [step], k, Ended);
      var rest := GiveUpAll(c, start, steps + [step], k);
      more := [step] + rest;
      assert steps + [step] + rest == steps + more;
      FrontOf(steps + [step], rest);
      MarkInPrefix(c, start, steps + more, |steps| + 1, |steps|);
    }
  }

  /** From an acceptance on, the loop waits for the agent to end exactly when the request was still open, or when the
      agent had not ended before. */
  lemma AcceptedSteerKeptIff(c: Config, start: Turn, steps: seq<Step>, i: nat, id: Id)
    requires Fresh(start) && AcceptedAt(c, start, steps, i, id)
    ensures WaitsForEnd(c, start, steps[..i + 1]) <==>
            OpenBefore(c, start, steps, i, id) || !HasEnded(c, start, steps[..i])
  {
    var upTo := steps[..i + 1];
    assert upTo[..i] == steps[..i];
    AcceptanceReopensIff(c, start, upTo, i, id);
    WaitsForEndIff(c, start, upTo);
    if k: nat :| LastMark(c, start, upTo, k, Ended) {
      LastMarkInPrefix(c, start, upTo, i, k);
    }
    if k: nat :| !OpenBefore(c, start, steps, i, id) && LastMark(c, start, steps[..i], k, Ended) {
      LastMarkKept(c, start, upTo, k, Ended);
    }
  }

  /** A reply that arrives after its request was given up finds nothing to reopen: the loop leaves without the turn
      that the agent has accepted. */
  lemma LateAcceptanceCutOff(c: Config, id: Id, newId: Option<Id>)
    requires c.rpcAgent
    ensures var start := Turn(None, None, "", {}, Stats(false, None, false), 0);
            var sofar := [Register(id), Receive(AgentSettled, None), Wait(10000), Forget(id)];
            var late := [Receive(Response(Some(id), Accepted, false, false, None), newId)];
            Fresh(start) && AcceptedAt(c, start, sofar + late, 4, id) && LeavesUnended(c, start, sofar, late)
  {
    var start := Turn(None, None, "", {}, Stats(false, None, false), 0);
    var s0, s1, s2, s3 := Register(id), Receive(AgentSettled, None), Wait(10000), Forget(id);
    var reply := Response(Some(id), Accepted, false, false, None);
    assert [] + [s0] == [s0] && [s0] + [s1] == [s0, s1];
    assert [s0, s1] + [s2] == [s0, s1, s2] && [s0, s1, s2] + [s3] == [s0, s1, s2, s3];
    OneMore(c, start, [], s0);
    OneMore(c, start, [s0], s1);
    OneMore(c, start, [s0, s1], s2);
    OneMore(c, start, [s0, s1, s2], s3);
    OneMore(c, start, [s0, s1, s2, s3], Receive(reply, newId));
    FrontOf([s0, s1, s2, s3], [Receive(reply, newId)]);
  }

  /** Nor does the loop leave before a registered steer is answered or given up. */
  lemma RegisteredSteerResolved(c: Config, start: Turn, steps: seq<Step>, i: nat, id: Id)
    requires Fresh(start) && Leaves(c, Run(c, start, steps)) && i < |steps| && steps[i] == Register(id)
    ensures exists k :: i < k < |steps| && Closes(c, start, steps, k, id)
  {
    NothingOpenIff(c, start, steps);
    assert !OpenSince(c, start, steps, i, id);
  }

  /** Without a new start, request or acceptance, waiting long enough always lets the loop leave. */
  lemma SettledEventuallyLeaves(c: Config, start: Turn, steps: seq<Step>, i: nat, ms: nat)
    requires Fresh(start) && c.rpcAgent && LastMark(c, start, steps, i, Ended)
    requires NothingOpen(c, start, steps)
    requires ms > Handoff(c) + 1000
    ensures Leaves(c, Run(c, start, steps + [Wait(ms)]))
  {
    var t := Run(c, start, steps);
    NotEndedAt(c, start, steps, i);
    ClockIs(c, start, steps);
    ElapsedGrows(steps, i);
    NothingOpenIff(c, start, steps);
    assert (steps + [Wait(ms)])[..|steps|] == steps;
    assert Run(c, start, steps + [Wait(ms)]) == Next(c, t, Wait(ms));
  }

  lemma {:induction false} ElapsedGrows(steps: seq<Step>, i: nat)
    requires i <= |steps|
    ensures Elapsed(steps[..i]) <= Elapsed(steps)
  {
    if i < |steps| {
      ElapsedGrows(steps[..|steps| - 1], i);
      assert steps[..|steps| - 1][..i] == steps[..i];
    } else {
      assert steps[..i] == steps;
    }
  }

  /** An event that can leave an error behind. */
  ghost predicate MayFail(c: Config, event: Event) {
    match event
    case Response(_, _, _, _, _) => c.rpcAgent && RejectsInitial(c, event)
    case AssistantEnd(_, failed, _) => failed
    case TurnEnd(error) => error.Some?
    case AgentEnd(errors) => FirstError(errors).Some?
    case ErrorEvent(_) => true
    case _ => false
  }

  /** The final assistant message decides: an error before a successful one is forgotten, one after it is kept. */
  lemma {:induction false} FinalMessageDecides(c: Config, start: Turn, steps: seq<Step>, i: nat)
    requires i < |steps| && steps[i].Receive? && steps[i].event.AssistantEnd?
    requires forall j :: i < j < |steps| && steps[j].Receive? ==> !steps[j].event.AssistantEnd? && !MayFail(c, steps[j].event)
    ensures Run(c, start, steps).finalText == steps[i].event.text
    ensures Run(c, start, steps).agentError ==
            if steps[i].event.failed then Some(steps[i].event.errorMessage.GetOr("Pi assistant failed")) else None
  {
    if i < |steps| - 1 {
      FinalMessageDecides(c, start, steps[..|steps| - 1], i);
    }
  }

  // ----- the ways out of the loop

  /** How the wait of a round ends: with a line of output, with the pipes closed, or with neither in time. The latter
      two look whether the child has exited. */
  datatype Wake = Line | Disconnected(childExited: bool) | Quiet(childExited: bool)

  /** What passes between two looks at the exits: the event that came, what other threads did, and time. */
  datatype Round = Round(steps: seq<Step>, wake: Wake)

  datatype Reason = HandedOff | TimedOut | ChildGone

  function Passed(rounds: seq<Round>): seq<Step> {
    if rounds == [] then [] else Passed(rounds[..|rounds| - 1]) + rounds[|rounds| - 1].steps
  }

  function AfterRounds(c: Config, start: Turn, rounds: seq<Round>): Turn {
    Run(c, start, Passed(rounds))
  }

  /** When the child was first seen to have exited: only a quiet round records it. */
  function Noted(before: Option<nat>, wake: Wake, clock: nat): Option<nat> {
    if before == None && wake == Quiet(true) then Some(clock) else before
  }

  function ExitSeen(c: Config, start: Turn, rounds: seq<Round>): Option<nat> {
    if rounds == [] then None
    else
      var n := |rounds| - 1;
      Noted(ExitSeen(c, start, rounds[..n]), rounds[n].wake, AfterRounds(c, start, rounds).clock)
  }

  /** Waking up like this ends the loop because the child is gone. */
  predicate EndsWith(wake: Wake, exited: Option<nat>, clock: nat) {
    match wake
    case Line => false
    case Disconnected(childExited) => childExited
    case Quiet(_) => exited.Some? && clock - exited.value > 2000
  }

  predicate Gone(c: Config, start: Turn, rounds: seq<Round>) {
    rounds != []
    && EndsWith(rounds[|rounds| - 1].wake, ExitSeen(c, start, rounds), AfterRounds(c, start, rounds).clock)
  }

  /** What the look at the head of the loop finds. The handoff comes before the deadline. */
  function AtLook(c: Config, deadline: Option<nat>, t: Turn): Option<Reason> {
    if Leaves(c, t) then Some(HandedOff)
    else if deadline.Some? && t.clock >= deadline.value then Some(TimedOut)
    else None
  }

  /** Why the loop stops after these rounds, if it does. */
  function Stops(c: Config, start: Turn, deadline: Option<nat>, rounds: seq<Round>): Option<Reason> {
    if Gone(c, start, rounds) then Some(ChildGone) else AtLook(c, deadline, AfterRounds(c, start, rounds))
  }

  lemma NextRound(c: Config, start: Turn, rounds: seq<Round>, n: nat)
    requires n < |rounds|
    ensures Passed(rounds[..n + 1]) == Passed(rounds[..n]) + rounds[n].steps
    ensures var clock := AfterRounds(c, start, rounds[..n + 1]).clock;
            var exited := Noted(ExitSeen(c, start, rounds[..n]), rounds[n].wake, clock);
            && ExitSeen(c, start, rounds[..n + 1]) == exited
            && Gone(c, start, rounds[..n + 1]) == EndsWith(rounds[n].wake, exited, clock)
  {
    assert rounds[..n + 1][..n] == rounds[..n];
  }

  // ----- the loop as it runs

  class Session {
    const config: Config
    var agentEnded: Option<nat>
    var agentError: Option<string>
    var finalText: string
    var pending: set<Id>
    var stats: Stats
    var clock: nat

    constructor (config: Config, stats: Stats)
      ensures this.config == config && View() == Turn(None, None, "", {}, stats, 0) && Fresh(View())
    {
      this.config := config;
      agentEnded, agentError, finalText, pending, this.stats, clock := None, None, "", {}, stats, 0;
    }

    function View(): Turn
      reads this
    {
      Turn(agentEnded, agentError, finalText, pending, stats, clock)
    }

    /** `send_steer`: a tracked request is registered before it is sent, and given up if it cannot be. */
    method SendSteer(id: Id, tracked: bool, sent: bool)
      modifies this
      ensures View() == Run(config, old(View()),
                            if !tracked then [] else if sent then [Register(id)] else [Register(id), Forget(id)])
    {
      if tracked {
        pending := pending + {id};
        if !sent {
          pending := pending - {id};
        }
        RegisterThenForget(config, old(View()), id);
      }
    }

    /** The request gave up waiting for its reply. */
    method Expire(id: Id)
      modifies this
      ensures View() == Next(config, old(View()), Forget(id))
    {
      pending := pending - {id};
    }

    /** A reply: to the initial prompt, to a pending request, or to neither. */
    method Answer(event: Event)
      requires event.Response?
      modifies this
      ensures View() == Reply(config, old(View()), event)
    {
      if event.id == Some(config.initialId) && event.success == Rejected {
        agentError := Some(event.error.GetOr("Pi rejected the initial prompt"));
        agentEnded := Some(clock);
      }
      if event.id.Some? && event.id.value in pending {
        pending := pending - {event.id.value};
        if event.success == Accepted && !event.handled {
          agentEnded := None;
        }
      }
    }

    method Receive(event: Event, newId: Option<Id>)
      modifies this
      ensures View() == Next(config, old(View()), Step.Receive(event, newId))
    {
      if stats.Takes(event) {
        stats := stats.Answered(event, newId);
        return;
      }
      if Advances(event) {
        stats := stats.Changed(newId);
      }
      match event
      case AgentStart | TurnStart =>
        if config.rpcAgent {
          agentEnded := None;
        }
      case AgentSettled =>
        if config.rpcAgent {
          agentEnded := Some(clock);
        }
      case Response(_, _, _, _, _) =>
        if config.rpcAgent {
          Answer(event);
        }
      case AssistantEnd(text, failed, errorMessage) =>
        finalText := text;
        agentError := if failed then Some(errorMessage.GetOr("Pi assistant failed")) else None;
      case TurnEnd(error) =>
        if agentError == None {
          agentError := error;
        }
      case AgentEnd(errors) =>
        if agentError == None {
          agentError := LatestError(errors);
        }
      case ErrorEvent(text) => agentError := Some(text);
      case OtherMessageEnd | OtherEvent(_) =>
    }

    method LatestError(errors: seq<Option<string>>) returns (error: Option<string>)
      ensures error == FirstError(errors)
    {
      var i := |errors|;
      assert errors[..i] == errors;
      while i > 0
        invariant i <= |errors| && FirstError(errors) == FirstError(errors[..i])
      {
        i := i - 1;
        if errors[i].Some? {
          return errors[i];
        }
        assert errors[..i + 1][..i] == errors[..i];
      }
      error := None;
    }

    method HandoffDue() returns (leaves: bool)
      ensures leaves == Leaves(config, View())
    {
      var handoff := if config.role == Partitioner then 0 else 500;
      leaves := false;
      if config.rpcAgent && agentEnded.Some? && clock - agentEnded.value > handoff {
        if pending == {} && (stats.pending == None || clock - agentEnded.value > handoff + 1000) {
          leaves := true;
        }
      }
    }

    method Perform(step: Step)
      modifies this
      ensures View() == Next(config, old(View()), step)
    {
      match step
      case Register(id) => pending := pending + {id};
      case Forget(id) => Expire(id);
      case Wait(ms) => clock := clock + ms;
      case Receive(event, newId) => Receive(event, newId);
    }

    method PerformAll(steps: seq<Step>, ghost before: seq<Step>, ghost start: Turn)
      requires View() == Run(config, start, before)
      modifies this
      ensures View() == Run(config, start, before + steps)
    {
      TakeNone(before, steps);
      for i := 0 to |steps|
        invariant View() == Run(config, start, before + steps[..i])
      {
        OneMore(config, start, before + steps[..i], steps[i]);
        Longer(before, steps, i);
        Perform(steps[i]);
      }
      TakeAll(steps);
    }

    /** The wait of one round, and whether the child is gone after it. */
    method Wake(round: Round, exited: Option<nat>, ghost before: seq<Step>, ghost start: Turn)
      returns (exited': Option<nat>, gone: bool)
      requires View() == Run(config, start, before)
      modifies this
      ensures View() == Run(config, start, before + round.steps)
      ensures exited' == Noted(exited, round.wake, clock) && gone == EndsWith(round.wake, exited', clock)
    {
      PerformAll(round.steps, before, start);
      exited', gone := exited, false;
      match round.wake
      case Line =>
      case Disconnected(childExited) => gone := childExited;
      case Quiet(childExited) =>
        if exited == None && childExited {
          exited' := Some(clock);
        }
        gone := exited'.Some? && clock - exited'.value > 2000;
    }

    /** The exits looked at between two rounds. */
    method Look(deadline: Option<nat>) returns (reason: Option<Reason>)
      ensures reason == AtLook(config, deadline, View())
    {
      var leaves := HandoffDue();
      if leaves {
        return Some(HandedOff);
      }
      reason := if deadline.Some? && clock >= deadline.value then Some(TimedOut) else None;
    }

    /** The loop of a turn, over what passes during its rounds. It stops at the first round at which there is reason
        to, and with that reason. */
    method Loop(deadline: Option<nat>, rounds: seq<Round>) returns (reason: Option<Reason>, n: nat)
      modifies this
      ensures n <= |rounds| && View() == AfterRounds(config, old(View()), rounds[..n])
      ensures forall r :: 0 <= r < n ==> Stops(config, old(View()), deadline, rounds[..r]) == None
      ensures reason == Stops(config, old(View()), deadline, rounds[..n])
      ensures reason == None ==> n == |rounds|
    {
      ghost var start := View();
      var exited: Option<nat> := None;
      n := 0;
      reason := Look(deadline);
      while reason == None && n < |rounds|
        invariant n <= |rounds| && View() == AfterRounds(config, start, rounds[..n])
        invariant exited == ExitSeen(config, start, rounds[..n])
        invariant reason == Stops(config, start, deadline, rounds[..n])
        invariant forall r :: 0 <= r < n ==> Stops(config, start, deadline, rounds[..r]) == None
      {
        NextRound(config, start, rounds, n);
        var gone;
        exited, gone := Wake(rounds[n], exited, Passed(rounds[..n]), start);
        n := n + 1;
        if gone {
          reason := Some(ChildGone);
        } else {
          reason := Look(deadline);
        }
      }
    }
  }

  lemma RegisterThenForget(c: Config, t: Turn, id: Id)
    ensures Run(c, t, [Register(id)]) == Next(c, t, Register(id))
    ensures Run(c, t, [Register(id), Forget(id)]) == Next(c, Next(c, t, Register(id)), Forget(id))
  {
    assert [Register(id)][..0] == [];
    assert [Register(id), Forget(id)][..1] == [Register(id)];
  }

}
