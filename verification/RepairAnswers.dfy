/** What the context hook makes of a history, group by group, with its text and conditions written out. A group is an
    assistant or user message with what follows it up to the next one. */
module RepairAnswers {
  import opened Wrappers
  import opened Collections
  import opened ContextRepair

  /** What passes, in the same order and as often. */
  ghost function Filtered<T>(keep: T -> bool, all: seq<T>): seq<T> {
    if all == [] then [] else if keep(all[0]) then [all[0]] + Filtered(keep, all[1..]) else Filtered(keep, all[1..])
  }

  // ----- well-formed calls

  ghost function ToolCalls(m: Message): seq<Block> {
    if m.Assistant? && m.content.Some? then Filtered((b: Block) => b.ToolCall?, m.content.value) else []
  }

  /** The message stopped for tools, and its calls have names and ids, no id twice. */
  ghost predicate IsAsking(m: Message) {
    && m.Assistant? && m.stop == ToolUse
    && ToolCalls(m) != []
    && (forall k :: 0 <= k < |ToolCalls(m)| ==> IsNamed(ToolCalls(m)[k]))
    && (forall j, k :: 0 <= j < k < |ToolCalls(m)| ==> IsNamed(ToolCalls(m)[j]) && IsNamed(ToolCalls(m)[k]) && ToolCalls(m)[j].id != ToolCalls(m)[k].id)
  }

  ghost predicate IsNamed(b: Block) {
    b.ToolCall? && b.id.Some? && b.id.value != "" && b.name.Some? && b.name.value != ""
  }

  /** The message broke off, or stopped for tools without well-formed calls. */
  ghost predicate HasFailed(m: Message) {
    m.Assistant? && (m.stop == Error || m.stop == Aborted || m.stop == Length || (m.stop == ToolUse && !IsAsking(m)))
  }

  lemma {:induction false} CallBlocksIs(blocks: seq<Block>)
    ensures CallBlocks(blocks) == Filtered((b: Block) => b.ToolCall?, blocks)
  {
    if blocks != [] {
      CallBlocksIs(blocks[1..]);
    }
  }

  lemma CallsAre(m: Message)
    requires m.Assistant?
    ensures CallsOf(m) == ToolCalls(m)
  {
    if m.content.Some? {
      CallBlocksIs(m.content.value);
    }
  }

  /** As many ids as calls exactly when no id is given twice. */
  lemma {:induction false} IdsDifferIff(calls: Calls)
    ensures |Ids(calls)| <= |calls|
    ensures |Ids(calls)| == |calls| <==> forall j, k :: 0 <= j < k < |calls| ==> calls[j].id != calls[k].id
  {
    if calls == [] {
      assert Ids(calls) == {};
    } else {
      var rest: Calls := calls[1..];
      IdsDifferIff(rest);
      assert calls == [calls[0]] + rest;
      IdsCons(calls[0], rest);
      HeadDiffers(calls, rest);
    }
  }

  lemma HeadDiffers(calls: Calls, rest: Calls)
    requires calls != [] && rest == calls[1..]
    ensures calls[0].id in Ids(rest) <==> exists k :: 0 < k < |calls| && calls[k].id == calls[0].id
    ensures (forall j, k :: 0 <= j < k < |calls| ==> calls[j].id != calls[k].id) <==>
            calls[0].id !in Ids(rest) && forall j, k :: 0 <= j < k < |rest| ==> rest[j].id != rest[k].id
  {
    if calls[0].id in Ids(rest) {
      var c :| c in rest && c.id == calls[0].id;
      var k :| 0 <= k < |rest| && rest[k] == c;
      assert calls[k + 1].id == calls[0].id;
    }
    if k :| 0 < k < |calls| && calls[k].id == calls[0].id {
      assert rest[k - 1] in rest;
    }
    assert forall k :: 0 <= k < |rest| ==> rest[k] == calls[k + 1];
    assert forall k :: 0 < k < |calls| ==> calls[k] == rest[k - 1];
  }

  lemma AskingIff(m: Message)
    ensures Asks(m) <==> IsAsking(m)
    ensures Failed(m) <==> HasFailed(m)
  {
    if m.Assistant? {
      CallsAre(m);
      IdsDifferIff(CallsOf(m));
      var calls := CallsOf(m);
      assert (forall c :: c in calls ==> NonEmpty(c.id) && NonEmpty(c.name)) <==>
             forall k :: 0 <= k < |calls| ==> IsNamed(calls[k]);
    }
  }

  // ----- one group

  ghost predicate AnsweredIn(tail: History, id: Option<string>) {
    exists r :: r in tail && r.ToolResult? && r.callId == id
  }

  ghost predicate Names(calls: seq<Block>, id: Option<string>) {
    exists c :: c in calls && c.ToolCall? && c.id == id
  }

  ghost function Unanswered(calls: seq<Block>, tail: History): seq<Block> {
    Filtered((c: Block) => c.ToolCall? && !AnsweredIn(tail, c.id), calls)
  }

  /** The result that closes an unanswered call: an error, dated like the message if that is dated. */
  ghost function Closing(c: Block, stamp: Option<int>, now: int): Message
    requires c.ToolCall?
  {
    ToolResult(c.id, c.name,
               "The tool result is not available in the current context; its side effects are unknown. Inspect the workspace and external state before retrying.",
               true, if stamp == None then Some(now) else stamp)
  }

  ghost predicate AreClosings(calls: seq<Block>, stamp: Option<int>, now: int, out: History) {
    |out| == |calls| && forall k :: 0 <= k < |calls| ==> calls[k].ToolCall? && out[k] == Closing(calls[k], stamp, now)
  }

  lemma {:induction false} ClosingsAre(calls: Calls, stamp: Option<int>, now: int)
    ensures AreClosings(calls, stamp, now, Closings(calls, stamp, now))
  {
    if calls != [] {
      var rest: Calls := calls[1..];
      ClosingsAre(rest, stamp, now);
      assert calls[0] in calls;
    }
  }

  lemma {:induction false} MissingAre(calls: Calls, tail: History)
    ensures Missing(calls, ResultIds(tail)) == Unanswered(calls, tail)
  {
    if calls != [] {
      var rest: Calls := calls[1..];
      MissingAre(rest, tail);
      assert calls[0] in calls;
      assert calls[0].id in ResultIds(tail) <==> AnsweredIn(tail, calls[0].id);
    }
  }

  lemma {:induction false} NamingAre(tail: History, calls: Calls)
    ensures Naming(tail, Ids(calls)) == Filtered((r: Message) => r.ToolResult? && Names(calls, r.callId), tail)
  {
    if tail != [] {
      NamingAre(tail[1..], calls);
      if tail[0].ToolResult? {
        assert tail[0].callId in Ids(calls) <==> Names(calls, tail[0].callId);
      }
    }
  }

  lemma {:induction false} NonResultsAre(tail: History)
    ensures NonResults(tail) == Filtered((r: Message) => !r.ToolResult?, tail)
  {
    if tail != [] {
      NonResultsAre(tail[1..]);
    }
  }

  /** A group after repair: as it was, unless its message has an unanswered call. Then come the results of its calls, a
      closing for each unanswered one in order, and what is no result. */
  ghost predicate IsRepaired(m: Message, tail: History, now: int, out: History) {
    if !IsAsking(m) || Unanswered(ToolCalls(m), tail) == [] then out == [m] + tail
    else
      exists closings :: AreClosings(Unanswered(ToolCalls(m), tail), m.stamp, now, closings)
        && out == [m] + Filtered((r: Message) => r.ToolResult? && Names(ToolCalls(m), r.callId), tail) + closings
                  + Filtered((r: Message) => !r.ToolResult?, tail)
  }

  lemma ClosedIsRepaired(m: Message, tail: History, now: int)
    requires Asks(m)
    ensures IsRepaired(m, tail, now, Closed(m, tail, now))
  {
    AskingIff(m);
    CallsAre(m);
    var calls := CallsOf(m);
    var missing := Missing(calls, ResultIds(tail));
    MissingAre(calls, tail);
    NamingAre(tail, calls);
    NonResultsAre(tail);
    ClosingsAre(missing, m.stamp, now);
    if missing != [] {
      var named, closings, others := Naming(tail, Ids(calls)), Closings(missing, m.stamp, now), NonResults(tail);
      assert AreClosings(missing, m.stamp, now, closings);
      assert [m] + (named + closings + others) == [m] + named + closings + others;
    }
  }

  // ----- the whole history

  ghost predicate Quiet(ms: History) {
    forall m :: m in ms ==> !m.Assistant? && !m.User?
  }

  ghost predicate StartsGroup(ms: History) {
    ms == [] || ms[0].Assistant? || ms[0].User?
  }

  lemma {:induction false} QuietKept(ms: History, continuation: bool, now: int)
    requires Quiet(ms)
    ensures Project(ms, continuation, now) == ms
  {
    if ms != [] {
      assert ms[0] in ms;
      QuietKept(ms[1..], continuation, now);
    }
  }

  lemma NotAsking(m: Message, rest: History, now: int)
    requires !m.Assistant?
    ensures Project([m] + rest, false, now) == [m] + Project(rest, false, now)
  {
    HeadAndRest(m, rest, []);
  }

  lemma {:induction false} QuietFirst(tail: History, rest: History, now: int)
    requires Quiet(tail)
    ensures Project(tail + rest, false, now) == tail + Project(rest, false, now)
  {
    if tail == [] {
      assert tail + rest == rest;
    } else {
      var m, more := tail[0], tail[1..];
      assert m in tail && tail == [m] + more;
      QuietFirst(more, rest, now);
      HeadAndRest(m, more, rest);
      NotAsking(m, more + rest, now);
      Associate([m], more, rest);
      Associate([m], more, Project(rest, false, now));
    }
  }

  /** The first group is repaired by itself, whatever follows; what comes before any group is left alone. */
  lemma RepairGroup(m: Message, tail: History, rest: History, now: int) returns (out: History)
    requires m.Assistant? || m.User?
    requires Quiet(tail) && StartsGroup(rest)
    ensures IsRepaired(m, tail, now, out)
    ensures Project([m] + tail + rest, false, now) == out + Project(rest, false, now)
  {
    var ms, more := [m] + tail + rest, tail + rest;
    assert ms[0] == m && ms[1..] == more;
    AskingIff(m);
    if Asks(m) {
      TailOfGroup(tail, rest);
      assert more[|tail|..] == rest;
      ClosedIsRepaired(m, tail, now);
      out := Closed(m, tail, now);
    } else {
      QuietFirst(tail, rest, now);
      Associate([m], tail, Project(rest, false, now));
      out := [m] + tail;
    }
  }

  /** Without continuation the markers go and the rest is repaired group by group. */
  lemma {:induction false} MarkersFiltered(ms: History)
    ensures WithoutMarkers(ms) == Filtered((m: Message) => !(m.Custom? && m.kind == "grapher-interrupted-continuation"), ms)
  {
    if ms != [] {
      MarkersFiltered(ms[1..]);
    }
  }

  lemma {:induction false} ProjectConcat(a: History, b: History, now: int)
    requires StartsGroup(b)
    ensures Project(a + b, false, now) == Project(a, false, now) + Project(b, false, now)
    decreases |a|
  {
    if a == [] {
      assert a + b == b;
    } else {
      var m, rest := a[0], a[1..];
      assert (a + b)[1..] == rest + b;
      if Asks(m) {
        var tail := Tail(rest);
        TailEnds(rest);
        var later := rest[|tail|..];
        assert rest == tail + later;
        Associate(tail, later, b);
        assert rest + b == tail + (later + b);
        TailOfGroup(tail, later + b);
        assert (rest + b)[|tail|..] == later + b;
        ProjectConcat(later, b, now);
        Associate(Closed(m, tail, now), Project(later, false, now), Project(b, false, now));
      } else {
        ProjectConcat(rest, b, now);
        Associate([m], Project(rest, false, now), Project(b, false, now));
      }
    }
  }

  /** Continuing: all groups but the last are repaired. A failed message that begins the last group goes, and with it the
      results of its malformed calls; any other last group is repaired like the rest. */
  lemma ContinuingGroup(before: History, m: Message, tail: History, now: int) returns (out: History)
    requires m.Assistant? || m.User?
    requires Quiet(tail)
    ensures Project(before + [m] + tail, true, now) == Project(before, false, now) + out
    ensures if !HasFailed(m) then IsRepaired(m, tail, now, out)
            else out == if m.stop == ToolUse then Filtered((r: Message) => !r.ToolResult?, tail) else tail
  {
    var fixed := LastGroupFixed(before, m, tail, now);
    RepairedHead(m, tail, now, fixed);
    LastDropped(Project(before, false, now), m, tail, fixed);
    out := Dropped(m, fixed[1..]);
    NonResultsAre(tail);
  }

  lemma FailedDoesNotAsk(m: Message)
    ensures HasFailed(m) ==> !IsAsking(m)
  {}

  lemma LastDropped(before: History, m: Message, tail: History, fixed: History)
    requires (m.Assistant? || m.User?) && fixed != [] && fixed[0] == m && NoBoundary(fixed[1..])
    requires !IsAsking(m) ==> fixed[1..] == tail
    ensures DropFailed(before + fixed) == before + Dropped(m, fixed[1..])
    ensures Dropped(m, fixed[1..]) ==
            if !HasFailed(m) then fixed else if m.stop == ToolUse then NonResults(tail) else tail
  {
    FailedDoesNotAsk(m);
    DropHead(before, m, fixed[1..], fixed);
    WhatIsDropped(m, fixed[1..], fixed);
  }

  lemma DropHead(before: History, m: Message, rest: History, fixed: History)
    requires Boundary(m) && NoBoundary(rest) && fixed != [] && fixed[0] == m && rest == fixed[1..]
    ensures DropFailed(before + fixed) == before + Dropped(m, rest)
  {
    assert fixed == [m] + rest;
    Associate(before, [m], rest);
    DropAt(before, m, rest);
  }

  lemma WhatIsDropped(m: Message, rest: History, fixed: History)
    requires fixed != [] && fixed[0] == m && rest == fixed[1..]
    ensures Dropped(m, rest) == if !HasFailed(m) then fixed else if m.stop == ToolUse then NonResults(rest) else rest
  {
    AskingIff(m);
    assert fixed == [m] + rest;
  }

  lemma LastGroupFixed(before: History, m: Message, tail: History, now: int) returns (fixed: History)
    requires m.Assistant? || m.User?
    requires Quiet(tail)
    ensures IsRepaired(m, tail, now, fixed)
    ensures Project(before + [m] + tail, true, now) == DropFailed(Project(before, false, now) + fixed)
  {
    ContinuationDrops(before + [m] + tail, now);
    fixed := RepairGroup(m, tail, [], now);
    var none: History := [];
    assert [m] + tail + none == [m] + tail;
    assert fixed + Project(none, false, now) == fixed;
    Associate(before, [m], tail);
    ProjectConcat(before, [m] + tail, now);
  }

  lemma RepairedHead(m: Message, tail: History, now: int, out: History)
    requires IsRepaired(m, tail, now, out) && Quiet(tail) && (m.Assistant? || m.User?)
    ensures out != [] && out[0] == m && NoBoundary(out[1..])
    ensures !IsAsking(m) ==> out[1..] == tail
  {
    if IsAsking(m) && Unanswered(ToolCalls(m), tail) != [] {
      var closings :| AreClosings(Unanswered(ToolCalls(m), tail), m.stamp, now, closings)
        && out == [m] + Filtered((r: Message) => r.ToolResult? && Names(ToolCalls(m), r.callId), tail) + closings
                  + Filtered((r: Message) => !r.ToolResult?, tail);
      FilteredWithin((r: Message) => r.ToolResult? && Names(ToolCalls(m), r.callId), tail);
      FilteredWithin((r: Message) => !r.ToolResult?, tail);
      FourParts(m, Filtered((r: Message) => r.ToolResult? && Names(ToolCalls(m), r.callId), tail), closings,
                Filtered((r: Message) => !r.ToolResult?, tail));
    }
  }

  lemma FourParts(m: Message, a: History, b: History, c: History)
    requires Quiet(a) && Quiet(b) && Quiet(c)
    ensures ([m] + a + b + c)[0] == m && NoBoundary(([m] + a + b + c)[1..])
  {
    assert ([m] + a + b + c)[1..] == a + b + c;
  }

  lemma {:induction false} FilteredWithin<T>(keep: T -> bool, all: seq<T>)
    ensures forall x :: x in Filtered(keep, all) <==> x in all && keep(x)
  {
    if all != [] {
      FilteredWithin(keep, all[1..]);
      assert all == [all[0]] + all[1..];
    }
  }

  // ----- what is added and left out

  lemma {:induction false} CountIs(ms: History, x: Message)
    ensures Count(ms, x) == multiset(ms)[x]
  {
    if ms != [] {
      CountIs(ms[1..], x);
      assert ms == [ms[0]] + ms[1..];
    }
  }

  /** Repair adds and leaves out exactly these messages, as often as they are listed. */
  lemma Balance(ms: History, now: int)
    ensures multiset(Project(ms, false, now)) + multiset(Orphans(ms)) == multiset(ms) + multiset(Added(ms, now))
  {
    forall x
      ensures (multiset(Project(ms, false, now)) + multiset(Orphans(ms)))[x] == (multiset(ms) + multiset(Added(ms, now)))[x]
    {
      Conserved(ms, now, x);
      CountIs(Project(ms, false, now), x);
      CountIs(Orphans(ms), x);
      CountIs(ms, x);
      CountIs(Added(ms, now), x);
    }
  }
}
