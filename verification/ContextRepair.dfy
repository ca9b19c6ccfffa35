/** The context hook of the prompt extension: a projection of the message history in which every well-formed
    tool call has a result before the conversation moves on.

    Without `continuation` the projection only repairs (`Project(ms, false, now)`). With it, a last assistant
    message that failed is dropped as well. */
module ContextRepair {
  import opened Wrappers
  import opened Collections

  datatype Block =
    | ToolCall(id: Option<string>, name: Option<string>, arguments: string)
    | Text(text: string)

  datatype StopReason = ToolUse | Error | Aborted | Length | OtherReason(reason: string)

  datatype Message =
    | Assistant(stop: StopReason, content: Option<seq<Block>>, stamp: Option<int>)
    | User(text: string)
    | ToolResult(callId: Option<string>, toolName: Option<string>, text: string, isError: bool, stamp: Option<int>)
    | Custom(kind: string, text: string)
    | Other(role: string, text: string)

  type History = seq<Message>

  predicate Marker(m: Message) {
    m.Custom? && m.kind == "grapher-interrupted-continuation"
  }

  function WithoutMarkers(ms: History): History {
    if ms == [] then []
    else if Marker(ms[0]) then WithoutMarkers(ms[1..])
    else [ms[0]] + WithoutMarkers(ms[1..])
  }

  function NonResults(ms: History): History {
    if ms == [] then []
    else if ms[0].ToolResult? then NonResults(ms[1..])
    else [ms[0]] + NonResults(ms[1..])
  }

  /** The results that answer one of `ids`. */
  function Naming(ms: History, ids: set<Option<string>>): History {
    if ms == [] then []
    else if ms[0].ToolResult? && ms[0].callId in ids then [ms[0]] + Naming(ms[1..], ids)
    else Naming(ms[1..], ids)
  }

  /** The results that answer none of `ids`. */
  ghost function Strays(ms: History, ids: set<Option<string>>): History {
    if ms == [] then []
    else if ms[0].ToolResult? && ms[0].callId !in ids then [ms[0]] + Strays(ms[1..], ids)
    else Strays(ms[1..], ids)
  }

  // ----- tool calls

  function CallBlocks(blocks: seq<Block>): seq<Block> {
    if blocks == [] then []
    else if blocks[0].ToolCall? then [blocks[0]] + CallBlocks(blocks[1..])
    else CallBlocks(blocks[1..])
  }

  predicate AllCalls(calls: seq<Block>) {
    forall c :: c in calls ==> c.ToolCall?
  }

  lemma {:induction false} CallBlocksAreCalls(blocks: seq<Block>)
    ensures AllCalls(CallBlocks(blocks))
  {
    if blocks != [] {
      CallBlocksAreCalls(blocks[1..]);
    }
  }

  type Calls = calls: seq<Block> | AllCalls(calls)

  function CallsOf(m: Message): Calls
    requires m.Assistant?
  {
    match m.content
    case None => []
    case Some(blocks) => CallBlocksAreCalls(blocks); CallBlocks(blocks)
  }

  function Ids(calls: Calls): set<Option<string>> {
    set c | c in calls :: c.id
  }

  predicate NonEmpty(s: Option<string>) {
    s.Some? && s.value != ""
  }

  predicate ValidCalls(calls: Calls) {
    && |calls| > 0
    && (forall c :: c in calls ==> NonEmpty(c.id) && NonEmpty(c.name))
    && |Ids(calls)| == |calls|
  }

  /** An assistant message that waits for the results of well-formed calls. */
  predicate Asks(m: Message) {
    m.Assistant? && m.stop == ToolUse && ValidCalls(CallsOf(m))
  }

  predicate Malformed(m: Message) {
    m.Assistant? && m.stop == ToolUse && !ValidCalls(CallsOf(m))
  }

  predicate Stopped(m: Message) {
    m.Assistant? && (m.stop == Error || m.stop == Aborted || m.stop == Length)
  }

  predicate Failed(m: Message) {
    Stopped(m) || Malformed(m)
  }

  // ----- the groups of a history

  predicate Boundary(m: Message) {
    m.Assistant? || m.User?
  }

  /** The messages before the next assistant or user message. */
  function Tail(ms: History): (tail: History)
    ensures tail <= ms
  {
    if ms == [] || Boundary(ms[0]) then [] else [ms[0]] + Tail(ms[1..])
  }

  function ResultIds(ms: History): set<Option<string>> {
    set m | m in ms && m.ToolResult? :: m.callId
  }

  function Missing(calls: Calls, answered: set<Option<string>>): Calls {
    if calls == [] then []
    else
      var rest: Calls := calls[1..];
      if calls[0].id in answered then Missing(rest, answered) else [calls[0]] + Missing(rest, answered)
  }

  const UNKNOWN :=
    "The tool result is not available in the current context; its side effects are unknown. Inspect the workspace and external state before retrying."

  function Closings(calls: Calls, stamp: Option<int>, now: int): History {
    if calls == [] then []
    else
      var rest: Calls := calls[1..];
      [ToolResult(calls[0].id, calls[0].name, UNKNOWN, true, if stamp.Some? then stamp else Some(now))]
      + Closings(rest, stamp, now)
  }

  /** The tail of a message that asks, after repair. */
  function RepairedTail(calls: Calls, tail: History, stamp: Option<int>, now: int): History {
    var missing := Missing(calls, ResultIds(tail));
    if missing == [] then tail
    else Naming(tail, Ids(calls)) + Closings(missing, stamp, now) + NonResults(tail)
  }

  function Closed(m: Message, tail: History, now: int): History
    requires Asks(m)
  {
    [m] + RepairedTail(CallsOf(m), tail, m.stamp, now)
  }

  predicate NoBoundary(ms: History) {
    forall m :: m in ms ==> !Boundary(m)
  }

  /** What the hook makes of a history that holds no marker. */
  function Project(ms: History, continuation: bool, now: int): History
    decreases |ms|
  {
    if ms == [] then []
    else
      var m, rest := ms[0], ms[1..];
      if continuation && Failed(m) && NoBoundary(rest) then
        if Malformed(m) then NonResults(rest) else Project(rest, continuation, now)
      else if Asks(m) then
        Closed(m, Tail(rest), now) + Project(rest[|Tail(rest)|..], continuation, now)
      else
        [m] + Project(rest, continuation, now)
  }

  // ----- lists of messages

  lemma {:induction false} NonResultsConcat(a: History, b: History)
    ensures NonResults(a + b) == NonResults(a) + NonResults(b)
  {
    if a == [] {
      assert a + b == b;
    } else {
      NonResultsConcat(a[1..], b);
      assert (a + b)[1..] == a[1..] + b;
      Associate([a[0]], NonResults(a[1..]), NonResults(b));
    }
  }

  lemma {:induction false} ResultsOnly(ms: History)
    requires forall m :: m in ms ==> m.ToolResult?
    ensures NonResults(ms) == []
  {
    if ms != [] {
      ResultsOnly(ms[1..]);
    }
  }

  lemma {:induction false} NoResultsLeft(ms: History)
    ensures forall m :: m in NonResults(ms) <==> m in ms && !m.ToolResult?
    ensures NonResults(NonResults(ms)) == NonResults(ms)
  {
    if ms != [] {
      NoResultsLeft(ms[1..]);
      assert ms == [ms[0]] + ms[1..];
      if !ms[0].ToolResult? {
        assert NonResults(ms)[1..] == NonResults(ms[1..]);
      }
    }
  }

  lemma {:induction false} NamingIs(ms: History, ids: set<Option<string>>)
    ensures forall m :: m in Naming(ms, ids) <==> m in ms && m.ToolResult? && m.callId in ids
  {
    if ms != [] {
      NamingIs(ms[1..], ids);
      assert ms == [ms[0]] + ms[1..];
    }
  }

  lemma {:induction false} TailOfGroup(a: History, b: History)
    requires NoBoundary(a) && (b == [] || Boundary(b[0]))
    ensures Tail(a + b) == a
  {
    if a == [] {
      assert a + b == b;
    } else {
      TailOfGroup(a[1..], b);
      assert (a + b)[1..] == a[1..] + b;
    }
  }

  lemma {:induction false} TailEnds(ms: History)
    ensures NoBoundary(Tail(ms))
    ensures |Tail(ms)| == |ms| || Boundary(ms[|Tail(ms)|])
  {
    if ms != [] && !Boundary(ms[0]) {
      TailEnds(ms[1..]);
    }
  }

  lemma IdsCons(c: Block, rest: Calls)
    requires c.ToolCall?
    ensures AllCalls([c] + rest) && Ids([c] + rest) == {c.id} + Ids(rest)
  {
    var all := [c] + rest;
    assert forall d :: d in all <==> d == c || d in rest;
  }

  lemma {:induction false} MissingIs(calls: Calls, answered: set<Option<string>>)
    ensures Missing(calls, answered) == [] <==> Ids(calls) <= answered
    ensures Ids(Missing(calls, answered)) == Ids(calls) - answered
  {
    if calls != [] {
      var rest: Calls := calls[1..];
      MissingIs(rest, answered);
      assert calls == [calls[0]] + rest;
      IdsCons(calls[0], rest);
      IdsCons(calls[0], Missing(rest, answered));
    }
  }

  lemma {:induction false} ClosingsAnswer(calls: Calls, stamp: Option<int>, now: int)
    ensures forall m :: m in Closings(calls, stamp, now) ==> m.ToolResult?
    ensures ResultIds(Closings(calls, stamp, now)) == Ids(calls)
  {
    if calls != [] {
      var rest: Calls := calls[1..];
      ClosingsAnswer(rest, stamp, now);
      assert calls == [calls[0]] + rest;
      assert Ids(calls) == {calls[0].id} + Ids(rest);
      var all := Closings(calls, stamp, now);
      assert all == [all[0]] + Closings(rest, stamp, now);
      assert ResultIds(all) == {all[0].callId} + ResultIds(Closings(rest, stamp, now));
    }
  }

  lemma ResultIdsConcat(a: History, b: History)
    ensures ResultIds(a + b) == ResultIds(a) + ResultIds(b)
  {
    forall id | id in ResultIds(a) + ResultIds(b)
      ensures id in ResultIds(a + b)
    {
      var m :| (m in a || m in b) && m.ToolResult? && m.callId == id;
      assert m in a + b;
    }
  }

  lemma NamingAnswers(ms: History, ids: set<Option<string>>)
    ensures ResultIds(Naming(ms, ids)) == ResultIds(ms) * ids
  {
    NamingIs(ms, ids);
    forall id | id in ResultIds(ms) * ids
      ensures id in ResultIds(Naming(ms, ids))
    {
      var m :| m in ms && m.ToolResult? && m.callId == id;
      assert m in Naming(ms, ids);
    }
  }

  /** A repaired tail answers every call and keeps the other messages in order. */
  lemma RepairedTailIs(calls: Calls, tail: History, stamp: Option<int>, now: int)
    requires NoBoundary(tail)
    ensures var out := RepairedTail(calls, tail, stamp, now);
            NoBoundary(out) && Ids(calls) <= ResultIds(out) && NonResults(out) == NonResults(tail)
  {
    var missing := Missing(calls, ResultIds(tail));
    MissingIs(calls, ResultIds(tail));
    if missing != [] {
      var named, closings, others := Naming(tail, Ids(calls)), Closings(missing, stamp, now), NonResults(tail);
      NamingIs(tail, Ids(calls));
      NamingAnswers(tail, Ids(calls));
      NoResultsLeft(tail);
      ClosingsAnswer(missing, stamp, now);
      ResultIdsConcat(named, closings);
      ResultIdsConcat(named + closings, others);
      ResultsOnly(named + closings);
      NonResultsConcat(named + closings, others);
      assert [] + others == others;
    }
  }

  lemma ClosedGroup(m: Message, tail: History, now: int)
    requires Asks(m) && NoBoundary(tail)
    ensures |Closed(m, tail, now)| > 0 && Closed(m, tail, now)[0] == m
    ensures var out := Closed(m, tail, now)[1..];
            NoBoundary(out) && Ids(CallsOf(m)) <= ResultIds(out) && NonResults(out) == NonResults(tail)
  {
    RepairedTailIs(CallsOf(m), tail, m.stamp, now);
    assert Closed(m, tail, now)[1..] == RepairedTail(CallsOf(m), tail, m.stamp, now);
  }

  // ----- what is kept

  lemma {:induction false} Unbounded(ms: History, continuation: bool, now: int)
    requires NoBoundary(ms)
    ensures Project(ms, continuation, now) == ms
  {
    if ms != [] {
      assert !Boundary(ms[0]) && ms == [ms[0]] + ms[1..];
      Unbounded(ms[1..], continuation, now);
    }
  }

  lemma SameOthers(m: Message, a: History, a': History, b: History, b': History)
    requires !m.ToolResult? && NonResults(a) == NonResults(a') && NonResults(b) == NonResults(b')
    ensures NonResults([m] + a + b) == NonResults([m] + a' + b')
  {
    NonResultsConcat([m] + a, b);
    NonResultsConcat([m] + a', b');
    NonResultsConcat([m], a);
    NonResultsConcat([m], a');
  }

  lemma ProjectedGroup(m: Message, tail: History, later: History, now: int)
    requires Asks(m) && tail == Tail(tail + later)
    ensures Project([m] + (tail + later), false, now) ==
            [m] + RepairedTail(CallsOf(m), tail, m.stamp, now) + Project(later, false, now)
  {
    var rest := tail + later;
    TailEnds(rest);
    ClosedGroup(m, tail, now);
    assert ([m] + rest)[1..] == rest && rest[|tail|..] == later;
  }

  lemma OthersInGroup(m: Message, tail: History, later: History, now: int)
    requires Asks(m) && tail == Tail(tail + later) && NoBoundary(tail)
    requires NonResults(Project(later, false, now)) == NonResults(later)
    ensures NonResults(Project([m] + (tail + later), false, now)) == NonResults([m] + (tail + later))
  {
    var fixed := RepairedTail(CallsOf(m), tail, m.stamp, now);
    ProjectedGroup(m, tail, later, now);
    RepairedTailIs(CallsOf(m), tail, m.stamp, now);
    SameOthers(m, fixed, tail, Project(later, false, now), later);
    Associate([m], tail, later);
  }

  /** Repair keeps every message that is not a tool result, in order. */
  lemma {:induction false} OtherMessagesKept(ms: History, now: int)
    ensures NonResults(Project(ms, false, now)) == NonResults(ms)
    decreases |ms|
  {
    if ms != [] {
      var m, rest := ms[0], ms[1..];
      if Asks(m) {
        var tail := Tail(rest);
        TailEnds(rest);
        OtherMessagesKept(rest[|tail|..], now);
        assert ms == [m] + (tail + rest[|tail|..]);
        OthersInGroup(m, tail, rest[|tail|..], now);
      } else {
        OtherMessagesKept(rest, now);
        NonResultsConcat([m], Project(rest, false, now));
      }
    }
  }

  ghost function Count(ms: History, x: Message): nat {
    if ms == [] then 0 else (if ms[0] == x then 1 else 0) + Count(ms[1..], x)
  }

  lemma {:induction false} CountConcat(a: History, b: History, x: Message)
    ensures Count(a + b, x) == Count(a, x) + Count(b, x)
  {
    if a == [] {
      assert a + b == b;
    } else {
      CountConcat(a[1..], b, x);
      assert (a + b)[1..] == a[1..] + b;
    }
  }

  lemma {:induction false} CountSplit(ms: History, ids: set<Option<string>>, x: Message)
    ensures Count(Naming(ms, ids), x) + Count(Strays(ms, ids), x) + Count(NonResults(ms), x) == Count(ms, x)
  {
    if ms != [] {
      CountSplit(ms[1..], ids, x);
      var m, rest := ms[0], ms[1..];
      CountConcat([m], Naming(rest, ids), x);
      CountConcat([m], Strays(rest, ids), x);
      CountConcat([m], NonResults(rest), x);
    }
  }

  ghost function OrphansOf(m: Message, tail: History): History {
    if Asks(m) && !(Ids(CallsOf(m)) <= ResultIds(tail)) then Strays(tail, Ids(CallsOf(m))) else []
  }

  ghost function AddedFor(m: Message, tail: History, now: int): History {
    if Asks(m) then Closings(Missing(CallsOf(m), ResultIds(tail)), m.stamp, now) else []
  }

  /** The results repair leaves out: those for no call of the message they follow, when it has an unanswered call. */
  ghost function Orphans(ms: History): History {
    if ms == [] then [] else OrphansOf(ms[0], Tail(ms[1..])) + Orphans(ms[1..])
  }

  /** The results repair adds: one for each unanswered call. */
  ghost function Added(ms: History, now: int): History {
    if ms == [] then [] else AddedFor(ms[0], Tail(ms[1..]), now) + Added(ms[1..], now)
  }

  lemma QuietStep(m: Message, rest: History, now: int)
    requires !m.Assistant?
    ensures Orphans([m] + rest) == Orphans(rest)
    ensures Added([m] + rest, now) == Added(rest, now)
  {
    var all := [m] + rest;
    assert all[1..] == rest;
    assert OrphansOf(m, Tail(rest)) == AddedFor(m, Tail(rest), now) == [];
  }

  lemma {:induction false} QuietTail(tail: History, rest: History, now: int)
    requires NoBoundary(tail)
    ensures Orphans(tail + rest) == Orphans(rest)
    ensures Added(tail + rest, now) == Added(rest, now)
  {
    if tail == [] {
      assert tail + rest == rest;
    } else {
      assert !Boundary(tail[0]);
      QuietTail(tail[1..], rest, now);
      QuietStep(tail[0], tail[1..] + rest, now);
      Associate([tail[0]], tail[1..], rest);
      assert tail == [tail[0]] + tail[1..];
    }
  }

  lemma ClosedConserves(m: Message, tail: History, now: int, x: Message)
    requires Asks(m)
    ensures Count(Closed(m, tail, now), x) + Count(OrphansOf(m, tail), x) ==
            Count([m], x) + Count(tail, x) + Count(AddedFor(m, tail, now), x)
  {
    var calls := CallsOf(m);
    var missing := Missing(calls, ResultIds(tail));
    MissingIs(calls, ResultIds(tail));
    CountConcat([m], RepairedTail(calls, tail, m.stamp, now), x);
    if missing != [] {
      var named, closings, others := Naming(tail, Ids(calls)), Closings(missing, m.stamp, now), NonResults(tail);
      CountSplit(tail, Ids(calls), x);
      CountConcat(named + closings, others, x);
      CountConcat(named, closings, x);
    }
  }

  lemma CountCons(m: Message, rest: History, now: int, x: Message)
    ensures Count([m] + rest, x) == Count([m], x) + Count(rest, x)
    ensures Count(Orphans([m] + rest), x) == Count(OrphansOf(m, Tail(rest)), x) + Count(Orphans(rest), x)
    ensures Count(Added([m] + rest, now), x) == Count(AddedFor(m, Tail(rest), now), x) + Count(Added(rest, now), x)
  {
    assert ([m] + rest)[1..] == rest;
    CountConcat([m], rest, x);
    CountConcat(OrphansOf(m, Tail(rest)), Orphans(rest), x);
    CountConcat(AddedFor(m, Tail(rest), now), Added(rest, now), x);
  }

  lemma ConservedGroup(m: Message, rest: History, now: int, x: Message)
    requires Asks(m)
    ensures var tail := Tail(rest);
            Count(Closed(m, tail, now), x) + Count(Orphans([m] + rest), x) + Count(Added(rest[|tail|..], now), x)
            == Count([m] + tail, x) + Count(Added([m] + rest, now), x) + Count(Orphans(rest[|tail|..]), x)
  {
    var tail := Tail(rest);
    TailEnds(rest);
    assert rest == tail + rest[|tail|..];
    CountCons(m, rest, now, x);
    QuietTail(tail, rest[|tail|..], now);
    ClosedConserves(m, tail, now, x);
    CountConcat([m], tail, x);
  }

  lemma ConservedOther(m: Message, rest: History, now: int, x: Message)
    requires !Asks(m)
    ensures Count(Orphans([m] + rest), x) == Count(Orphans(rest), x)
    ensures Count(Added([m] + rest, now), x) == Count(Added(rest, now), x)
  {
    CountCons(m, rest, now, x);
  }

  /** How many more copies of `x` repair leaves than the orphans and the additions account for. */
  ghost function Surplus(ms: History, now: int, x: Message): int {
    Count(Project(ms, false, now), x) + Count(Orphans(ms), x) - Count(ms, x) - Count(Added(ms, now), x)
  }

  lemma CountProjected(m: Message, rest: History, now: int, x: Message)
    requires Asks(m)
    ensures var tail := Tail(rest);
            Count(Project([m] + rest, false, now), x) ==
            Count(Closed(m, tail, now), x) + Count(Project(rest[|tail|..], false, now), x)
  {
    var tail := Tail(rest);
    assert ([m] + rest)[1..] == rest;
    CountConcat(Closed(m, tail, now), Project(rest[|tail|..], false, now), x);
  }

  lemma CountGroup(m: Message, rest: History, x: Message)
    ensures Count([m] + rest, x) == Count([m] + Tail(rest), x) + Count(rest[|Tail(rest)|..], x)
  {
    var tail := Tail(rest);
    assert rest == tail + rest[|tail|..];
    CountConcat([m], rest, x);
    CountConcat([m], tail, x);
    CountConcat(tail, rest[|tail|..], x);
  }

  lemma SurplusGroup(m: Message, rest: History, now: int, x: Message)
    requires Asks(m)
    ensures Surplus([m] + rest, now, x) == Surplus(rest[|Tail(rest)|..], now, x)
  {
    ConservedGroup(m, rest, now, x);
    CountProjected(m, rest, now, x);
    CountGroup(m, rest, x);
  }

  lemma SurplusOther(m: Message, rest: History, now: int, x: Message)
    requires !Asks(m)
    ensures Surplus([m] + rest, now, x) == Surplus(rest, now, x)
  {
    assert ([m] + rest)[1..] == rest;
    ConservedOther(m, rest, now, x);
    CountConcat([m], Project(rest, false, now), x);
    CountConcat([m], rest, x);
  }

  lemma {:induction false} SurplusZero(ms: History, now: int, x: Message)
    ensures Surplus(ms, now, x) == 0
    decreases |ms|
  {
    if ms != [] {
      var m, rest := ms[0], ms[1..];
      assert ms == [m] + rest;
      if Asks(m) {
        SurplusGroup(m, rest, now, x);
        SurplusZero(rest[|Tail(rest)|..], now, x);
      } else {
        SurplusOther(m, rest, now, x);
        SurplusZero(rest, now, x);
      }
    }
  }

  /** Every message occurs in the repaired history as often as before, but for the orphans left out and the results added. */
  lemma Conserved(ms: History, now: int, x: Message)
    ensures Count(Project(ms, false, now), x) + Count(Orphans(ms), x) == Count(ms, x) + Count(Added(ms, now), x)
  {
    SurplusZero(ms, now, x);
  }

  // ----- every call has its result

  /** A result for `id` comes after message `i` and before the next assistant or user message. */
  ghost predicate Answered(ms: History, i: nat, id: Option<string>)
    requires i < |ms|
  {
    exists j :: AnswersAt(ms, i, id, j)
  }

  ghost predicate AnswersAt(ms: History, i: nat, id: Option<string>, j: int) {
    && i < j < |ms|
    && ms[j].ToolResult? && ms[j].callId == id
    && NoBoundary(ms[i + 1..j])
  }

  /** Every well-formed call of every message is answered in time. */
  ghost predicate AllAnswered(ms: History) {
    forall i, id :: 0 <= i < |ms| && Asks(ms[i]) && id in Ids(CallsOf(ms[i])) ==> Answered(ms, i, id)
  }

  lemma TailHolds(rest: History, id: Option<string>) returns (k: nat)
    requires id in ResultIds(Tail(rest))
    ensures k < |Tail(rest)| && rest[k].ToolResult? && rest[k].callId == id && NoBoundary(rest[..k])
  {
    var tail := Tail(rest);
    var r :| r in tail && r.ToolResult? && r.callId == id;
    k :| 0 <= k < |tail| && tail[k] == r;
    TailEnds(rest);
    assert rest[..k] == tail[..k];
  }

  lemma BeforeBoundary(rest: History, k: nat)
    requires k < |rest| && NoBoundary(rest[..k]) && !Boundary(rest[k])
    ensures rest[k] in Tail(rest)
  {
    forall j | 0 <= j < k
      ensures !Boundary(rest[j])
    {
      assert rest[j] == rest[..k][j];
    }
    TailEnds(rest);
    assert Tail(rest)[k] == rest[k];
  }

  lemma TailAnswers(ms: History, i: nat, id: Option<string>)
    requires i < |ms|
    ensures Answered(ms, i, id) <==> id in ResultIds(Tail(ms[i + 1..]))
  {
    if id in ResultIds(Tail(ms[i + 1..])) {
      InTailAnswers(ms, i, id);
    }
    if Answered(ms, i, id) {
      AnswersInTail(ms, i, id);
    }
  }

  lemma InTailAnswers(ms: History, i: nat, id: Option<string>)
    requires i < |ms| && id in ResultIds(Tail(ms[i + 1..]))
    ensures Answered(ms, i, id)
  {
    var rest := ms[i + 1..];
    var k := TailHolds(rest, id);
    assert ms[i + 1..i + 1 + k] == rest[..k];
    assert AnswersAt(ms, i, id, i + 1 + k);
  }

  lemma AnswersInTail(ms: History, i: nat, id: Option<string>)
    requires i < |ms| && Answered(ms, i, id)
    ensures id in ResultIds(Tail(ms[i + 1..]))
  {
    var rest := ms[i + 1..];
    var j :| AnswersAt(ms, i, id, j);
    assert ms[i + 1..j] == rest[..j - i - 1];
    BeforeBoundary(rest, j - i - 1);
  }

  /** The same, group by group. */
  ghost predicate GroupsAnswered(ms: History) {
    ms != [] ==>
      && (Asks(ms[0]) ==> Ids(CallsOf(ms[0])) <= ResultIds(Tail(ms[1..])))
      && GroupsAnswered(ms[1..])
  }

  lemma {:induction false} GroupsAnsweredAt(ms: History, i: nat)
    requires GroupsAnswered(ms) && i < |ms| && Asks(ms[i])
    ensures Ids(CallsOf(ms[i])) <= ResultIds(Tail(ms[i + 1..]))
  {
    if i > 0 {
      GroupsAnsweredAt(ms[1..], i - 1);
      assert ms[1..][i..] == ms[i + 1..];
    }
  }

  lemma {:induction false} GroupsAnsweredFrom(ms: History, i: nat)
    requires AllAnswered(ms) && i <= |ms|
    ensures GroupsAnswered(ms[i..])
    decreases |ms| - i
  {
    if i < |ms| {
      GroupsAnsweredFrom(ms, i + 1);
      assert ms[i..][1..] == ms[i + 1..];
      if Asks(ms[i]) {
        forall id | id in Ids(CallsOf(ms[i]))
          ensures id in ResultIds(Tail(ms[i + 1..]))
        {
          TailAnswers(ms, i, id);
        }
      }
    }
  }

  lemma AllAnsweredIff(ms: History)
    ensures AllAnswered(ms) <==> GroupsAnswered(ms)
  {
    if AllAnswered(ms) {
      GroupsAnsweredFrom(ms, 0);
      assert ms[0..] == ms;
    }
    if GroupsAnswered(ms) {
      forall i, id | 0 <= i < |ms| && Asks(ms[i]) && id in Ids(CallsOf(ms[i]))
        ensures Answered(ms, i, id)
      {
        GroupsAnsweredAt(ms, i);
        TailAnswers(ms, i, id);
      }
    }
  }

  lemma {:induction false} GroupsAnsweredSkip(tail: History, rest: History)
    requires NoBoundary(tail)
    ensures GroupsAnswered(tail + rest) <==> GroupsAnswered(rest)
  {
    if tail == [] {
      assert tail + rest == rest;
    } else {
      assert !Boundary(tail[0]);
      GroupsAnsweredSkip(tail[1..], rest);
      assert (tail + rest)[1..] == tail[1..] + rest;
    }
  }

  lemma ProjectStarts(ms: History, now: int)
    requires ms == [] || Boundary(ms[0])
    ensures var out := Project(ms, false, now); out == [] || Boundary(out[0])
  {
    if ms != [] && Asks(ms[0]) {
      TailEnds(ms[1..]);
      ClosedGroup(ms[0], Tail(ms[1..]), now);
    }
  }

  lemma GroupAnswered(m: Message, tail: History, later: History)
    requires NoBoundary(tail) && (later == [] || Boundary(later[0])) && GroupsAnswered(later)
    requires Asks(m) ==> Ids(CallsOf(m)) <= ResultIds(tail)
    ensures GroupsAnswered([m] + tail + later)
  {
    TailOfGroup(tail, later);
    GroupsAnsweredSkip(tail, later);
    HeadAndRest(m, tail, later);
  }

  lemma {:induction false} ProjectAnswers(ms: History, now: int)
    ensures GroupsAnswered(Project(ms, false, now))
    decreases |ms|
  {
    if ms != [] {
      var m, rest := ms[0], ms[1..];
      if Asks(m) {
        var tail := Tail(rest);
        TailEnds(rest);
        ClosedGroup(m, tail, now);
        var group, later := Closed(m, tail, now), rest[|tail|..];
        ProjectStarts(later, now);
        ProjectAnswers(later, now);
        assert group == [m] + group[1..];
        GroupAnswered(m, group[1..], Project(later, false, now));
      } else {
        ProjectAnswers(rest, now);
        assert Project(ms, false, now)[1..] == Project(rest, false, now);
      }
    }
  }

  lemma AnsweredGroup(m: Message, rest: History, now: int)
    requires Asks(m) && Ids(CallsOf(m)) <= ResultIds(Tail(rest))
    requires Project(rest[|Tail(rest)|..], false, now) == rest[|Tail(rest)|..]
    ensures Project([m] + rest, false, now) == [m] + rest
  {
    PushedGroup(m, rest, false, now);
    AnsweredClosed(m, Tail(rest), now);
    Glue(m, Tail(rest), rest);
  }

  lemma AnsweredClosed(m: Message, tail: History, now: int)
    requires Asks(m) && Ids(CallsOf(m)) <= ResultIds(tail)
    ensures Closed(m, tail, now) == [m] + tail
  {
    MissingIs(CallsOf(m), ResultIds(tail));
  }

  lemma AnsweredLater(rest: History)
    requires GroupsAnswered(rest)
    ensures GroupsAnswered(rest[|Tail(rest)|..])
  {
    var tail := Tail(rest);
    TailEnds(rest);
    assert rest == tail + rest[|tail|..];
    GroupsAnsweredSkip(tail, rest[|tail|..]);
  }

  lemma {:induction false} AnsweredUnchanged(ms: History, now: int)
    requires GroupsAnswered(ms)
    ensures Project(ms, false, now) == ms
    decreases |ms|
  {
    if ms != [] {
      var m, rest := ms[0], ms[1..];
      assert ms == [m] + rest;
      if Asks(m) {
        AnsweredLater(rest);
        AnsweredUnchanged(rest[|Tail(rest)|..], now);
        AnsweredGroup(m, rest, now);
      } else {
        AnsweredUnchanged(rest, now);
      }
    }
  }

  /** Repair changes nothing exactly when every well-formed call is answered in time. */
  lemma UnchangedIff(ms: History, now: int)
    ensures Project(ms, false, now) == ms <==> AllAnswered(ms)
  {
    AllAnsweredIff(ms);
    ProjectAnswers(ms, now);
    if GroupsAnswered(ms) {
      AnsweredUnchanged(ms, now);
    }
  }

  // ----- the whole hook

  function Hook(ms: History, continuation: bool, now: int): History {
    Project(WithoutMarkers(ms), continuation, now)
  }

  ghost predicate NoMarkers(ms: History) {
    forall m :: m in ms ==> !Marker(m)
  }

  lemma {:induction false} MarkersGone(ms: History)
    ensures NoMarkers(WithoutMarkers(ms))
    ensures NoMarkers(ms) ==> WithoutMarkers(ms) == ms
  {
    if ms != [] {
      MarkersGone(ms[1..]);
    }
  }

  /** Projecting brings no marker in. */
  lemma ProjectNoMarkers(ms: History, now: int)
    requires NoMarkers(ms)
    ensures NoMarkers(Project(ms, false, now))
  {
    OtherMessagesKept(ms, now);
    NoResultsLeft(ms);
    NoResultsLeft(Project(ms, false, now));
  }

  /** Repair is idempotent, whatever the clock says the second time. */
  lemma RepairIdempotent(ms: History, now: int, later: int)
    ensures Hook(Hook(ms, false, now), false, later) == Hook(ms, false, now)
  {
    var clean := WithoutMarkers(ms);
    MarkersGone(ms);
    ProjectNoMarkers(clean, now);
    MarkersGone(Project(clean, false, now));
    ProjectAnswers(clean, now);
    AnsweredUnchanged(Project(clean, false, now), later);
  }

  // ----- continuation

  function LastAssistant(ms: History): (i: int)
    ensures -1 <= i < |ms|
    ensures i >= 0 ==> ms[i].Assistant?
    ensures forall j :: i < j < |ms| ==> !ms[j].Assistant?
  {
    if ms == [] then -1
    else if ms[|ms| - 1].Assistant? then |ms| - 1
    else LastAssistant(ms[..|ms| - 1])
  }

  function LastUser(ms: History): (i: int)
    ensures -1 <= i < |ms|
    ensures i >= 0 ==> ms[i].User?
    ensures forall j :: i < j < |ms| ==> !ms[j].User?
  {
    if ms == [] then -1
    else if ms[|ms| - 1].User? then |ms| - 1
    else LastUser(ms[..|ms| - 1])
  }

  /** The last assistant message failed and no user message follows it. */
  predicate EndsFailed(ms: History) {
    LastAssistant(ms) > LastUser(ms) && Failed(ms[LastAssistant(ms)])
  }

  /** A history without its failed last assistant message, and without the results of malformed calls. */
  function DropFailed(ms: History): History {
    if !EndsFailed(ms) then ms
    else
      var i := LastAssistant(ms);
      ms[..i] + AfterFailed(ms[i], ms[i + 1..])
  }

  function AfterFailed(m: Message, rest: History): History {
    if Malformed(m) then NonResults(rest) else rest
  }

  lemma EndsFailedAt(ms: History, i: nat)
    requires i < |ms| && Boundary(ms[i]) && NoBoundary(ms[i + 1..])
    ensures EndsFailed(ms) <==> Failed(ms[i])
    ensures EndsFailed(ms) ==> LastAssistant(ms) == i
  {
    forall j | i < j < |ms|
      ensures !Boundary(ms[j])
    {
      assert ms[i + 1..][j - i - 1] == ms[j];
    }
  }

  lemma NotBoundary(ms: History, i: nat)
    requires NoBoundary(ms) && i < |ms|
    ensures !Boundary(ms[i])
  {}

  lemma NothingToDrop(ms: History)
    requires NoBoundary(ms)
    ensures DropFailed(ms) == ms
  {
    NoBoundaryEnds(ms);
  }

  function Dropped(m: Message, rest: History): History {
    if Failed(m) then AfterFailed(m, rest) else [m] + rest
  }

  lemma DropAt(before: History, m: Message, rest: History)
    requires Boundary(m) && NoBoundary(rest)
    ensures DropFailed(before + [m] + rest) == before + Dropped(m, rest)
  {
    var ms := before + [m] + rest;
    assert ms[|before| + 1..] == rest && ms[..|before|] == before && ms[|before|] == m;
    EndsFailedAt(ms, |before|);
    if Failed(m) {
      assert LastAssistant(ms) == |before|;
    } else {
      Associate(before, [m], rest);
    }
  }

  /** Only what follows the last assistant or user message matters. */
  lemma DropInSuffix(a: History, b: History)
    requires !NoBoundary(b)
    ensures DropFailed(a + b) == a + DropFailed(b)
  {
    var i := LastBoundary(b);
    var before, m, rest := b[..i], b[i], b[i + 1..];
    DropAt(before, m, rest);
    DropAt(a + before, m, rest);
    assert b == before + [m] + rest;
    Reassociate(a, before, [m], rest);
    Reassociate(a, before, [], Dropped(m, rest));
    assert before + [] == before && a + before + [] == a + before;
  }

  lemma {:induction false} LastBoundary(ms: History) returns (i: nat)
    requires !NoBoundary(ms)
    ensures i < |ms| && Boundary(ms[i]) && NoBoundary(ms[i + 1..])
  {
    if Boundary(ms[|ms| - 1]) {
      i := |ms| - 1;
    } else {
      var init := ms[..|ms| - 1];
      assert ms == init + [ms[|ms| - 1]];
      i := LastBoundary(init);
      assert ms[i + 1..] == init[i + 1..] + [ms[|ms| - 1]];
    }
  }

  /** Continuing is repairing, then dropping the failed last assistant message. */
  lemma {:induction false} ContinuationDrops(ms: History, now: int)
    ensures Project(ms, true, now) == DropFailed(Project(ms, false, now))
    decreases |ms|
  {
    if NoBoundary(ms) {
      Unbounded(ms, true, now);
      Unbounded(ms, false, now);
      NothingToDrop(ms);
    } else {
      var m, rest := ms[0], ms[1..];
      if NoBoundary(rest) {
        assert ms == [m] + rest;
        LastProjected(m, rest, now);
        LastRepaired(m, rest, now);
      } else if Asks(m) {
        var tail := Tail(rest);
        TailEnds(rest);
        var later := rest[|tail|..];
        assert rest == tail + later;
        ContinuationDrops(later, now);
        assert Boundary(later[0]);
        BoundaryKept(later, now);
        DropInSuffix(Closed(m, tail, now), Project(later, false, now));
      } else {
        ContinuationDrops(rest, now);
        BoundaryKept(rest, now);
        DropInSuffix([m], Project(rest, false, now));
      }
    }
  }

  lemma LastProjected(m: Message, rest: History, now: int)
    requires NoBoundary(rest)
    ensures Project([m] + rest, true, now) == if Failed(m) then AfterFailed(m, rest) else Project([m] + rest, false, now)
  {
    assert ([m] + rest)[1..] == rest;
    Unbounded(rest, true, now);
    Unbounded(rest, false, now);
    if Asks(m) {
      assert Project([], true, now) == Project([], false, now) == [];
      TailOfGroup(rest, []);
      assert rest + [] == rest;
    }
  }

  lemma LastGroup(m: Message, rest: History, now: int)
    requires NoBoundary(rest) && Asks(m)
    ensures Project([m] + rest, false, now) == Closed(m, rest, now)
  {
    assert ([m] + rest)[1..] == rest;
    assert rest + [] == rest;
    TailOfGroup(rest, []);
    assert Project([], false, now) == [];
  }

  lemma DropFirst(m: Message, rest: History)
    requires NoBoundary(rest) && Boundary(m)
    ensures DropFailed([m] + rest) == Dropped(m, rest)
  {
    HeadAndRest(m, rest, []);
    HeadAndRest(m, Dropped(m, rest), []);
    DropAt([], m, rest);
  }

  lemma LastRepaired(m: Message, rest: History, now: int)
    requires NoBoundary(rest) && Boundary(m)
    ensures var out := Project([m] + rest, false, now);
            DropFailed(out) == if Failed(m) then AfterFailed(m, rest) else out
  {
    var out := Project([m] + rest, false, now);
    if Asks(m) {
      LastGroup(m, rest, now);
      ClosedGroup(m, rest, now);
      assert out == [m] + out[1..];
      DropFirst(m, out[1..]);
    } else {
      assert ([m] + rest)[1..] == rest;
      Unbounded(rest, false, now);
      assert out == [m] + rest;
      DropFirst(m, rest);
    }
  }

  lemma BoundaryKept(ms: History, now: int)
    requires !NoBoundary(ms)
    ensures !NoBoundary(Project(ms, false, now))
  {
    OtherMessagesKept(ms, now);
    NoResultsLeft(ms);
    NoResultsLeft(Project(ms, false, now));
  }

  // ----- what continuing drops

  lemma TailBefore(b: History, m: Message, rest: History, other: History)
    requires Boundary(m)
    ensures Tail(b + [m] + rest) == Tail(b)
    ensures Tail(b) <= Tail(b + other)
  {
    if b == [] {
      assert b + [m] + rest == [m] + rest && ([m] + rest)[0] == m;
    } else {
      TailBefore(b[1..], m, rest, other);
      assert (b + [m] + rest)[1..] == b[1..] + [m] + rest;
      assert (b + other)[1..] == b[1..] + other;
    }
  }

  /** Dropping a failed message and what it asked for leaves earlier calls answered. */
  lemma {:induction false} DropKeepsAnswers(before: History, m: Message, rest: History, after: History)
    requires Boundary(m) && NoBoundary(after) && GroupsAnswered(before + [m] + rest)
    ensures GroupsAnswered(before + after)
  {
    if before == [] {
      GroupsAnsweredSkip(after, []);
      assert after + [] == after && before + after == after;
    } else {
      assert (before + [m] + rest)[1..] == before[1..] + [m] + rest;
      assert (before + after)[1..] == before[1..] + after;
      DropKeepsAnswers(before[1..], m, rest, after);
      TailBefore(before[1..], m, rest, after);
    }
  }

  lemma AfterFailedBounds(m: Message, rest: History)
    requires NoBoundary(rest)
    ensures NoBoundary(AfterFailed(m, rest))
    ensures NonResults(AfterFailed(m, rest)) == NonResults(rest)
    ensures |AfterFailed(m, rest)| <= |rest|
  {
    NoResultsLeft(rest);
    NonResultsShorter(rest);
  }

  lemma {:induction false} NonResultsShorter(ms: History)
    ensures |NonResults(ms)| <= |ms|
  {
    if ms != [] {
      NonResultsShorter(ms[1..]);
    }
  }

  lemma DropFailedAnswers(ms: History)
    requires GroupsAnswered(ms)
    ensures GroupsAnswered(DropFailed(ms))
  {
    if NoBoundary(ms) {
      NothingToDrop(ms);
    } else {
      var i := LastBoundary(ms);
      var before, m, rest := ms[..i], ms[i], ms[i + 1..];
      assert ms == before + [m] + rest;
      DropAt(before, m, rest);
      if Failed(m) {
        AfterFailedBounds(m, rest);
        DropKeepsAnswers(before, m, rest, AfterFailed(m, rest));
      } else {
        Associate(before, [m], rest);
      }
    }
  }

  /** Every well-formed call in the projected history has its result in time, in both modes. */
  lemma EveryCallAnswered(ms: History, continuation: bool, now: int)
    ensures AllAnswered(Hook(ms, continuation, now))
  {
    var clean := WithoutMarkers(ms);
    ProjectAnswers(clean, now);
    if continuation {
      ContinuationDrops(clean, now);
      DropFailedAnswers(Project(clean, false, now));
    }
    AllAnsweredIff(Hook(ms, continuation, now));
  }

  /** Histories with the same other messages end in the same assistant or user message. */
  lemma SameLast(a: History, m: Message, r: History, a': History, m': Message, r': History)
    requires a + [m] + r == a' + [m'] + r'
    requires Boundary(m) && NoBoundary(r) && Boundary(m') && NoBoundary(r')
    ensures a == a' && m == m' && r == r'
  {
    if |a| < |a'| {
      LastIsLater(a, m, r, a', m', r');
    } else if |a'| < |a| {
      LastIsLater(a', m', r', a, m, r);
    }
    SamePlace(a, m, r, a', m', r');
  }

  lemma LastIsLater(a: History, m: Message, r: History, a': History, m': Message, r': History)
    requires a + [m] + r == a' + [m'] + r' && NoBoundary(r) && Boundary(m')
    ensures |a'| <= |a|
  {
    var all := a + [m] + r;
    forall k | |a| < k < |all|
      ensures !Boundary(all[k])
    {
      assert all[k] == r[k - |a| - 1];
    }
    assert all[|a'|] == m';
  }

  lemma SamePlace(a: History, m: Message, r: History, a': History, m': Message, r': History)
    requires a + [m] + r == a' + [m'] + r' && |a| == |a'|
    ensures a == a' && m == m' && r == r'
  {
    var all, all' := a + [m] + r, a' + [m'] + r';
    assert a == all[..|a|] && a' == all'[..|a'|];
    assert m == all[|a|] && m' == all'[|a'|];
    assert r == all[|a| + 1..] && r' == all'[|a'| + 1..];
  }

  lemma NonResultsParts(a: History, m: Message, r: History)
    requires Boundary(m) && NoBoundary(r)
    ensures NonResults(a + [m] + r) == NonResults(a) + [m] + NonResults(r)
    ensures NoBoundary(NonResults(r))
  {
    NonResultsConcat(a + [m], r);
    NonResultsConcat(a, [m]);
    assert NonResults([m]) == [m] by {
      assert [m][1..] == [];
    }
    NoResultsLeft(r);
  }

  lemma SameOthersSameEnd(x: History, y: History) returns (i: nat, j: nat)
    requires NonResults(x) == NonResults(y) && !NoBoundary(x)
    ensures i < |x| && j < |y| && x[i] == y[j] && Boundary(x[i])
    ensures NoBoundary(x[i + 1..]) && NoBoundary(y[j + 1..])
    ensures NonResults(x[..i]) == NonResults(y[..j])
    ensures NonResults(x[i + 1..]) == NonResults(y[j + 1..])
  {
    NoResultsLeft(x);
    NoResultsLeft(y);
    i := OthersAtLast(x);
    j := OthersAtLast(y);
    SameLast(NonResults(x[..i]), x[i], NonResults(x[i + 1..]), NonResults(y[..j]), y[j], NonResults(y[j + 1..]));
  }

  lemma OthersAtLast(x: History) returns (i: nat)
    requires !NoBoundary(x)
    ensures i < |x| && Boundary(x[i]) && NoBoundary(x[i + 1..]) && NoBoundary(NonResults(x[i + 1..]))
    ensures NonResults(x) == NonResults(x[..i]) + [x[i]] + NonResults(x[i + 1..])
  {
    i := LastBoundary(x);
    assert x == x[..i] + [x[i]] + x[i + 1..];
    NonResultsParts(x[..i], x[i], x[i + 1..]);
  }

  lemma NoBoundaryEnds(ms: History)
    requires NoBoundary(ms)
    ensures !EndsFailed(ms)
  {
    if LastAssistant(ms) >= 0 {
      NotBoundary(ms, LastAssistant(ms));
    }
  }

  lemma SameOthersEndsFailed(x: History, y: History)
    requires NonResults(x) == NonResults(y)
    ensures EndsFailed(x) <==> EndsFailed(y)
  {
    NoResultsLeft(x);
    NoResultsLeft(y);
    if NoBoundary(x) {
      NoBoundaryEnds(x);
      NoBoundaryEnds(y);
    } else {
      var i, j := SameOthersSameEnd(x, y);
      EndsFailedAt(x, i);
      EndsFailedAt(y, j);
    }
  }

  lemma DroppedOthers(x: History, i: nat)
    requires i < |x| && EndsFailed(x) && i == LastAssistant(x) && NoBoundary(x[i + 1..])
    ensures NonResults(DropFailed(x)) == NonResults(x[..i]) + NonResults(x[i + 1..])
  {
    AfterFailedBounds(x[i], x[i + 1..]);
    NonResultsConcat(x[..i], AfterFailed(x[i], x[i + 1..]));
  }

  lemma EndsFailedParts(x: History) returns (i: nat)
    requires EndsFailed(x)
    ensures i < |x| && i == LastAssistant(x) && NoBoundary(x[i + 1..])
  {
    if NoBoundary(x) {
      NoBoundaryEnds(x);
    }
    i := LastBoundary(x);
    EndsFailedAt(x, i);
  }

  lemma SameOthersSameDrop(x: History, y: History)
    requires NonResults(x) == NonResults(y) && EndsFailed(x)
    ensures EndsFailed(y)
    ensures NonResults(x[..LastAssistant(x)]) == NonResults(y[..LastAssistant(y)])
    ensures NonResults(x[LastAssistant(x) + 1..]) == NonResults(y[LastAssistant(y) + 1..])
  {
    if NoBoundary(x) {
      NoBoundaryEnds(x);
    }
    var i, j := SameOthersSameEnd(x, y);
    EndsFailedAt(x, i);
    EndsFailedAt(y, j);
  }

  lemma ContinuingDrops(clean: History, fixed: History)
    requires NonResults(clean) == NonResults(fixed) && EndsFailed(clean)
    ensures NonResults(DropFailed(fixed)) == NonResults(clean[..LastAssistant(clean)] + clean[LastAssistant(clean) + 1..])
  {
    SameOthersSameDrop(clean, fixed);
    DroppedOthersAtLast(fixed);
    var i := LastAssistant(clean);
    NonResultsConcat(clean[..i], clean[i + 1..]);
  }

  lemma DroppedOthersAtLast(x: History)
    requires EndsFailed(x)
    ensures NonResults(DropFailed(x)) == NonResults(x[..LastAssistant(x)]) + NonResults(x[LastAssistant(x) + 1..])
  {
    var i := EndsFailedParts(x);
    DroppedOthers(x, i);
  }

  /** Continuing keeps every message that is not a tool result, in order, except a failed last assistant message. */
  lemma ContinuingKeeps(ms: History, now: int)
    ensures var clean := WithoutMarkers(ms);
            NonResults(Hook(ms, true, now)) ==
            if EndsFailed(clean) then NonResults(clean[..LastAssistant(clean)] + clean[LastAssistant(clean) + 1..])
            else NonResults(clean)
  {
    var clean := WithoutMarkers(ms);
    var fixed := Project(clean, false, now);
    OtherMessagesKept(clean, now);
    ContinuationDrops(clean, now);
    if EndsFailed(clean) {
      ContinuingDrops(clean, fixed);
    } else {
      SameOthersEndsFailed(clean, fixed);
    }
  }

  lemma DropChangesIff(ms: History)
    ensures DropFailed(ms) == ms <==> !EndsFailed(ms)
  {
    if EndsFailed(ms) {
      var i := LastAssistant(ms);
      NonResultsShorter(ms[i + 1..]);
      assert |DropFailed(ms)| < |ms|;
    }
  }

  lemma DropThenEnds(ms: History)
    requires EndsFailed(ms)
    ensures EndsFailed(DropFailed(ms)) <==> EndsFailed(ms[..LastAssistant(ms)])
  {
    var i := LastAssistant(ms);
    var before, rest := ms[..i], ms[i + 1..];
    PastLast(ms, i);
    var after := AfterFailed(ms[i], rest);
    AfterFailedBounds(ms[i], rest);
    EndsFailedAppend(before, after);
  }

  lemma EndsFailedAppend(before: History, after: History)
    requires NoBoundary(after)
    ensures EndsFailed(before + after) <==> EndsFailed(before)
  {
    var all := before + after;
    if NoBoundary(before) {
      NoBoundaryEnds(before);
      NoBoundaryEnds(all);
    } else {
      var i := LastBoundary(before);
      assert all[i + 1..] == before[i + 1..] + after;
      EndsFailedAt(before, i);
      EndsFailedAt(all, i);
    }
  }

  lemma HookTwice(ms: History, now: int, later: int)
    ensures Hook(Hook(ms, true, now), true, later) == DropFailed(Hook(ms, true, now))
  {
    var clean := WithoutMarkers(ms);
    var once := Hook(ms, true, now);
    ContinuationDrops(clean, now);
    ProjectAnswers(clean, now);
    DropFailedAnswers(Project(clean, false, now));
    MarkersGone(ms);
    ProjectNoMarkers(clean, now);
    DropFailedNoMarkers(Project(clean, false, now));
    MarkersGone(once);
    AnsweredUnchanged(once, later);
    ContinuationDrops(once, later);
  }

  lemma DropFailedNoMarkers(ms: History)
    requires NoMarkers(ms)
    ensures NoMarkers(DropFailed(ms))
  {
    if EndsFailed(ms) {
      NoResultsLeft(ms[LastAssistant(ms) + 1..]);
    }
  }

  /** Under continuation a second pass changes the history exactly when the message before the dropped one has failed too. */
  lemma ContinuationIdempotentIff(ms: History, now: int, later: int)
    ensures var clean := WithoutMarkers(ms);
            Hook(Hook(ms, true, now), true, later) == Hook(ms, true, now) <==>
            !(EndsFailed(clean) && EndsFailed(clean[..LastAssistant(clean)]))
  {
    var clean := WithoutMarkers(ms);
    var fixed := Project(clean, false, now);
    HookTwice(ms, now, later);
    DropChangesIff(Hook(ms, true, now));
    ContinuationDrops(clean, now);
    OtherMessagesKept(clean, now);
    SameOthersEndsFailed(clean, fixed);
    if EndsFailed(clean) {
      DropThenEnds(fixed);
      SameOthersSameDrop(clean, fixed);
      SameOthersEndsFailed(clean[..LastAssistant(clean)], fixed[..LastAssistant(fixed)]);
    }
  }

  /** Two failed assistant messages in a row: each pass drops one. */
  lemma ContinuationNotIdempotent()
    ensures var ms := [Assistant(Error, None, None), Assistant(Aborted, None, None)];
            Hook(Hook(ms, true, 0), true, 0) != Hook(ms, true, 0)
  {
    var a, b := Assistant(Error, None, None), Assistant(Aborted, None, None);
    var ms := [a, b];
    MarkersGone(ms);
    assert ms[..1] == [a] && [a][1..] == [];
    EndsFailedAt(ms, 1);
    EndsFailedAt([a], 0);
    ContinuationIdempotentIff(ms, 0, 0);
  }

  // ----- the hook as it runs

  lemma PastLast(ms: History, i: nat)
    requires i < |ms| && ms[i].Assistant?
    ensures (i == LastAssistant(ms) && i > LastUser(ms)) <==> NoBoundary(ms[i + 1..])
  {
    var rest := ms[i + 1..];
    if !NoBoundary(rest) {
      var k := LastBoundary(rest);
      assert ms[i + 1 + k] == rest[k];
    } else {
      EndsAt(ms, i);
    }
  }

  lemma EndsAt(ms: History, i: nat)
    requires i < |ms| && ms[i].Assistant? && NoBoundary(ms[i + 1..])
    ensures i == LastAssistant(ms) && i > LastUser(ms)
  {
    var rest := ms[i + 1..];
    forall j | i < j < |ms|
      ensures !Boundary(ms[j])
    {
      assert rest[j - i - 1] == ms[j];
    }
  }

  method EndOfTail(messages: History, index: nat) returns (end: nat)
    requires index < |messages|
    ensures index < end <= |messages| && messages[index + 1..end] == Tail(messages[index + 1..])
  {
    end := index + 1;
    while end < |messages| && !Boundary(messages[end])
      invariant index < end <= |messages| && NoBoundary(messages[index + 1..end])
    {
      assert messages[index + 1..end + 1] == messages[index + 1..end] + [messages[end]];
      end := end + 1;
    }
    assert messages[index + 1..] == messages[index + 1..end] + messages[end..];
    TailOfGroup(messages[index + 1..end], messages[end..]);
  }

  /** The `context` handler. */
  method Repair(history: History, continuation: bool, now: int) returns (projected: History)
    ensures projected == Hook(history, continuation, now)
  {
    var messages := WithoutMarkers(history);
    var lastAssistant, lastUser := LastAssistant(messages), LastUser(messages);
    projected := [];
    var index := 0;
    assert messages[0..] == messages;
    assert [] + Project(messages, continuation, now) == Project(messages, continuation, now);
    while index < |messages|
      invariant index <= |messages|
      invariant projected + Project(messages[index..], continuation, now) == Project(messages, continuation, now)
    {
      var pushed: History;
      ghost var before := projected;
      FirstAndRest(messages, index);
      pushed, index := Next(messages, index, continuation, lastAssistant, lastUser, now);
      projected := projected + pushed;
      Associate(before, pushed, Project(messages[index..], continuation, now));
    }
  }

  lemma {:induction false} TailPushed(tail: History, rest: History, continuation: bool, now: int)
    requires NoBoundary(tail)
    ensures Project(tail + rest, continuation, now) == tail + Project(rest, continuation, now)
  {
    if tail == [] {
      assert tail + rest == rest;
    } else {
      assert !Boundary(tail[0]);
      TailPushed(tail[1..], rest, continuation, now);
      Pushed(tail[0], tail[1..] + rest, continuation, now);
      Associate([tail[0]], tail[1..], rest);
      Associate([tail[0]], tail[1..], Project(rest, continuation, now));
      assert tail == [tail[0]] + tail[1..];
    }
  }

  lemma Pushed(m: Message, rest: History, continuation: bool, now: int)
    requires !Asks(m) && !(continuation && Failed(m) && NoBoundary(rest))
    ensures Project([m] + rest, continuation, now) == [m] + Project(rest, continuation, now)
  {
    assert ([m] + rest)[1..] == rest;
  }

  lemma PushedGroup(m: Message, rest: History, continuation: bool, now: int)
    requires Asks(m)
    ensures Project([m] + rest, continuation, now) ==
            Closed(m, Tail(rest), now) + Project(rest[|Tail(rest)|..], continuation, now)
  {
    assert ([m] + rest)[1..] == rest;
  }

  lemma PushedMalformed(m: Message, rest: History, continuation: bool, now: int)
    requires Malformed(m)
    ensures var tail := Tail(rest);
            Project([m] + rest, continuation, now) ==
            (if continuation && NoBoundary(rest) then NonResults(tail) else [m] + tail)
            + Project(rest[|tail|..], continuation, now)
  {
    var tail := Tail(rest);
    TailEnds(rest);
    if continuation && NoBoundary(rest) {
      assert ([m] + rest)[1..] == rest;
      TailOfGroup(rest, []);
      assert rest + [] == rest;
      assert NonResults(tail) + [] == NonResults(tail);
    } else {
      Pushed(m, rest, continuation, now);
      assert rest == tail + rest[|tail|..];
      TailPushed(tail, rest[|tail|..], continuation, now);
      Associate([m], tail, Project(rest[|tail|..], continuation, now));
    }
  }

  lemma Skipped(m: Message, rest: History, now: int)
    requires Stopped(m) && NoBoundary(rest)
    ensures Project([m] + rest, true, now) == [] + Project(rest, true, now)
  {
    assert ([m] + rest)[1..] == rest;
  }

  /** One turn of the handler's loop: what it pushes, and where it goes on. */
  method Next(messages: History, index: nat, continuation: bool, lastAssistant: int, lastUser: int, now: int)
    returns (pushed: History, next: nat)
    requires index < |messages| && lastAssistant == LastAssistant(messages) && lastUser == LastUser(messages)
    ensures index < next <= |messages|
    ensures Project([messages[index]] + messages[index + 1..], continuation, now) ==
            pushed + Project(messages[next..], continuation, now)
  {
    var message := messages[index];
    ghost var rest := messages[index + 1..];
    if !message.Assistant? {
      Pushed(message, rest, continuation, now);
      return [message], index + 1;
    }
    PastLast(messages, index);
    if continuation && index == lastAssistant && index > lastUser && Stopped(message) {
      Skipped(message, rest, now);
      return [], index + 1;
    }
    if message.stop != ToolUse {
      Pushed(message, rest, continuation, now);
      return [message], index + 1;
    }
    pushed, next := NextCalls(messages, index, continuation, lastAssistant, lastUser, now);
  }

  /** The same for a message that stopped to call tools. */
  method NextCalls(messages: History, index: nat, continuation: bool, lastAssistant: int, lastUser: int, now: int)
    returns (pushed: History, next: nat)
    requires index < |messages| && lastAssistant == LastAssistant(messages) && lastUser == LastUser(messages)
    requires messages[index].Assistant? && messages[index].stop == ToolUse
    ensures index < next <= |messages|
    ensures Project([messages[index]] + messages[index + 1..], continuation, now) ==
            pushed + Project(messages[next..], continuation, now)
  {
    var message := messages[index];
    ghost var rest := messages[index + 1..];
    next := EndOfTail(messages, index);
    var tail := messages[index + 1..next];
    assert rest[|tail|..] == messages[next..];
    var calls := CallsOf(message);
    if !ValidCalls(calls) {
      PastLast(messages, index);
      PushedMalformed(message, rest, continuation, now);
      if continuation && index == lastAssistant && index > lastUser {
        pushed := NonResults(tail);
      } else {
        pushed := [message] + tail;
      }
      return;
    }
    PushedGroup(message, rest, continuation, now);
    var missing := Missing(calls, ResultIds(tail));
    if missing == [] {
      pushed := [message] + tail;
    } else {
      pushed := [message] + (Naming(tail, Ids(calls)) + Closings(missing, message.stamp, now) + NonResults(tail));
    }
  }
}
