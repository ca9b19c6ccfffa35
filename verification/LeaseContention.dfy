/** Attempts that contend for devices. An attempt that finds a lock file held gives up, but closes the lock files it took
    only afterwards, so that attempts may refuse each other. This is when they all may, and when one gets through. */
module LeaseContention {
  import opened Names
  import opened Collections
  import opened DeviceLeases
  import NodeId
  import Sorting

  // ----- one order of lock files

  /** The keys of an attempt come in the order of their lock files. */
  ghost predicate Ascends(keys: seq<string>) {
    forall m, n :: 0 <= m < n < |keys| ==> Less(LockName(keys[m]), LockName(keys[n]))
  }

  /** A device id as drivers print it: thirty-six characters after the prefix, in lower case. */
  predicate Usual(id: string) {
    "GPU-" <= id && |id| == 40 && NodeId.Lower(id[4..]) == id[4..]
  }

  lemma LessAfterHead(c: char, a: string, b: string)
    ensures Less([c] + a, [c] + b) <==> Less(a, b)
  {
    assert ([c] + a)[1..] == a && ([c] + b)[1..] == b;
  }

  lemma {:induction false} LessAfterPrefix(p: string, a: string, b: string)
    ensures Less(p + a, p + b) <==> Less(a, b)
  {
    if p == "" {
      assert p + a == a && p + b == b;
    } else {
      LessAfterPrefix(p[1..], a, b);
      LessAfterHead(p[0], p[1..] + a, p[1..] + b);
      FirstAndRest(p, 0);
      Associate([p[0]], p[1..], a);
      Associate([p[0]], p[1..], b);
    }
  }

  lemma {:induction false} LessBeforeSuffix(a: string, b: string, c: string)
    requires |a| == |b| && Less(a, b)
    ensures Less(a + c, b + c)
  {
    assert (a + c)[1..] == a[1..] + c && (b + c)[1..] == b[1..] + c;
    if a[0] == b[0] {
      LessBeforeSuffix(a[1..], b[1..], c);
    }
  }

  lemma UsualLockName(id: string)
    requires Usual(id)
    ensures LockName(id) == "cuda-gpu-" + (id[4..] + ".lock") && id == "GPU-" + id[4..]
  {
    assert id[..4] == "GPU-" && id == id[..4] + id[4..];
    forall i | 0 <= i < 36
      ensures NodeId.Lower(id)[4 + i] == id[4..][i]
    {
      assert NodeId.Lower(id[4..])[i] == NodeId.LowerChar(id[4..][i]);
    }
    assert NodeId.Lower(id)[0] == 'g' && NodeId.Lower(id)[1] == 'p' && NodeId.Lower(id)[2] == 'u' && NodeId.Lower(id)[3] == '-';
    assert NodeId.Lower(id) == "gpu-" + id[4..];
    assert "cuda-" + ("gpu-" + id[4..]) + ".lock" == "cuda-gpu-" + (id[4..] + ".lock");
  }

  lemma UsualLess(a: string, b: string)
    requires Usual(a) && Usual(b) && Less(a, b)
    ensures Less(LockName(a), LockName(b))
  {
    UsualLockName(a);
    UsualLockName(b);
    LessAfterPrefix("GPU-", a[4..], b[4..]);
    LessBeforeSuffix(a[4..], b[4..], ".lock");
    LessAfterPrefix("cuda-gpu-", a[4..] + ".lock", b[4..] + ".lock");
  }

  lemma {:induction false} OrderedPair(s: seq<string>, m: nat, n: nat)
    requires Sorting.Ordered(Less, s) && m < n < |s|
    ensures !Less(s[n], s[m])
  {
    if m == 0 {
      assert s[n] == s[1..][n - 1] && s[n] in s[1..];
    } else {
      OrderedPair(s[1..], m - 1, n - 1);
    }
  }

  /** Different ids in their usual spelling are taken in the order of their lock files. */
  lemma UsualAscends(ids: seq<string>)
    requires Distinct(ids) && forall id :: id in ids ==> Usual(id)
    ensures Ascends(SortKeys(ids))
  {
    var keys := SortKeys(ids);
    KeysInOrder(ids);
    SameMembers(ids, keys);
    DistinctByKept((id: string) => id, ids, keys);
    forall m, n | 0 <= m < n < |keys|
      ensures Less(LockName(keys[m]), LockName(keys[n]))
    {
      OrderedPair(keys, m, n);
      LessTotal(keys[m], keys[n]);
      assert keys[m] in keys && keys[n] in keys;
      UsualLess(keys[m], keys[n]);
    }
  }

  // ----- runs

  ghost predicate StepAt(isUuid: UuidTest, hosts: seq<Host>, actions: seq<Action>, i: int)
    requires |hosts| == |actions| + 1 && 0 <= i < |actions|
  {
    hosts[i + 1] == Next(isUuid, hosts[i], actions[i])
  }

  /** Every state of a run, from the empty host on. */
  ghost predicate Trace(isUuid: UuidTest, hosts: seq<Host>, actions: seq<Action>) {
    && |hosts| == |actions| + 1 && hosts[0] == Host(map[], map[])
    && forall i {:trigger StepAt(isUuid, hosts, actions, i)} :: 0 <= i < |actions| ==> StepAt(isUuid, hosts, actions, i)
  }

  lemma {:induction false} TraceInv(isUuid: UuidTest, hosts: seq<Host>, actions: seq<Action>, i: nat)
    requires Trace(isUuid, hosts, actions) && i < |hosts|
    ensures Inv(hosts[i])
  {
    if i > 0 {
      TraceInv(isUuid, hosts, actions, i - 1);
      assert StepAt(isUuid, hosts, actions, i - 1);
      NextKeepsInv(isUuid, hosts[i - 1], actions[i - 1]);
    }
  }

  /** The step refuses the attempt: the lock file it wants next is held. */
  ghost predicate Refuses(isUuid: UuidTest, h: Host, action: Action, o: Owner) {
    && o in h.attempts && action.Advance? && action.owner == o && h.attempts[o].phase == Acquiring
    && var a := h.attempts[o];
       a.next < |a.keys| && ValidId(isUuid, a.keys[a.next]) && LockName(a.keys[a.next]) in h.locks
  }

  function Wanted(a: Attempt): string
    requires a.next < |a.keys|
  {
    LockName(a.keys[a.next])
  }

  /** What one step does to one attempt. */
  lemma AttemptStep(isUuid: UuidTest, h: Host, action: Action, o: Owner)
    requires o in Next(isUuid, h, action).attempts
    ensures var a' := Next(isUuid, h, action).attempts[o];
      if o !in h.attempts then action.Begin? && a' == Attempt(SortKeys(action.ids), 0, Acquiring)
      else
        var a := h.attempts[o];
        && a'.keys == a.keys && a.next <= a'.next
        && (a'.phase == Failed(true) ==> a' == a || (Refuses(isUuid, h, action, o) && a' == a.(phase := Failed(true))))
  {}

  ghost predicate RefusedAt(isUuid: UuidTest, hosts: seq<Host>, actions: seq<Action>, i: int, o: Owner) {
    |hosts| == |actions| + 1 && 0 <= i < |actions| && Refuses(isUuid, hosts[i], actions[i], o)
  }

  /** An attempt that has been refused was refused at some step, at the lock file it still wants. */
  lemma {:induction false} RefusedBefore(isUuid: UuidTest, hosts: seq<Host>, actions: seq<Action>, j: nat, p: Owner)
    returns (i: nat)
    requires Trace(isUuid, hosts, actions) && j < |hosts|
    requires p in hosts[j].attempts && hosts[j].attempts[p].phase == Failed(true)
    ensures i < j && RefusedAt(isUuid, hosts, actions, i, p)
    ensures hosts[i].attempts[p].keys == hosts[j].attempts[p].keys && hosts[i].attempts[p].next == hosts[j].attempts[p].next
  {
    assert StepAt(isUuid, hosts, actions, j - 1);
    AttemptStep(isUuid, hosts[j - 1], actions[j - 1], p);
    if hosts[j - 1].attempts[p] == hosts[j].attempts[p] {
      i := RefusedBefore(isUuid, hosts, actions, j - 1, p);
    } else {
      i := j - 1;
    }
  }

  /** The attempt lives from state `j` to state `k`. */
  ghost predicate Through(hosts: seq<Host>, p: Owner, j: nat, k: nat) {
    j <= k < |hosts| && forall l :: j <= l <= k ==> p in hosts[l].attempts
  }

  lemma {:induction false} ThroughKeeps(isUuid: UuidTest, hosts: seq<Host>, actions: seq<Action>, p: Owner, j: nat, k: nat)
    requires Trace(isUuid, hosts, actions) && Through(hosts, p, j, k)
    ensures hosts[k].attempts[p].keys == hosts[j].attempts[p].keys && hosts[j].attempts[p].next <= hosts[k].attempts[p].next
  {
    if k > j {
      ThroughKeeps(isUuid, hosts, actions, p, j, k - 1);
      assert StepAt(isUuid, hosts, actions, k - 1);
      AttemptStep(isUuid, hosts[k - 1], actions[k - 1], p);
    }
  }

  /** All lock files that the attempts of a run ask for. */
  ghost function Asked(actions: seq<Action>): set<string> {
    set i, id | 0 <= i < |actions| && actions[i].Begin? && id in SortKeys(actions[i].ids) :: LockName(id)
  }

  ghost predicate AllAscend(actions: seq<Action>) {
    forall i :: 0 <= i < |actions| && actions[i].Begin? ==> Ascends(SortKeys(actions[i].ids))
  }

  lemma {:induction false} KeysAsked(isUuid: UuidTest, hosts: seq<Host>, actions: seq<Action>, j: nat, o: Owner)
    requires Trace(isUuid, hosts, actions) && AllAscend(actions) && j < |hosts| && o in hosts[j].attempts
    ensures Ascends(hosts[j].attempts[o].keys) && LockNames(hosts[j].attempts[o].keys) <= Asked(actions)
  {
    assert StepAt(isUuid, hosts, actions, j - 1);
    AttemptStep(isUuid, hosts[j - 1], actions[j - 1], o);
    if o in hosts[j - 1].attempts {
      KeysAsked(isUuid, hosts, actions, j - 1, o);
    }
  }

  /** The lock files asked for that come after this one. */
  ghost function Above(actions: seq<Action>, name: string): set<string> {
    set k | k in Asked(actions) && Less(name, k)
  }

  lemma FewerAbove(actions: seq<Action>, name: string, higher: string)
    requires Less(name, higher) && higher in Asked(actions)
    ensures Above(actions, higher) < Above(actions, name)
  {
    LessIrreflexive(higher);
    assert higher in Above(actions, name) && higher !in Above(actions, higher);
    forall k | k in Above(actions, higher)
      ensures k in Above(actions, name)
    {
      LessTransitive(name, higher, k);
    }
  }

  /** From state `j` on, no lock file that is held ends the attempt. */
  ghost predicate GetsThrough(hosts: seq<Host>, j: nat, p: Owner) {
    && j < |hosts| && p in hosts[j].attempts
    && forall k: nat :: Through(hosts, p, j, k) ==> hosts[k].attempts[p].phase != Failed(true)
  }

  ghost predicate HoldsFrom(h: Host, p: Owner, name: string) {
    exists k :: k in h.locks && h.locks[k] == p && (k == name || Less(name, k))
  }

  /** The attempt that holds the lock file at which another one is refused wants only later ones. */
  lemma HolderWantsLater(isUuid: UuidTest, hosts: seq<Host>, actions: seq<Action>, j: nat, p: Owner, name: string, k: nat)
    requires Trace(isUuid, hosts, actions) && AllAscend(actions) && Through(hosts, p, j, k)
    requires name in hosts[j].locks && hosts[j].locks[name] == p && hosts[k].attempts[p].phase == Failed(true)
    ensures var a := hosts[k].attempts[p];
      a.next < |a.keys| && Less(name, Wanted(a)) && Wanted(a) in Asked(actions)
  {
    TraceInv(isUuid, hosts, actions, j);
    var a0, a := hosts[j].attempts[p], hosts[k].attempts[p];
    assert WellHeld(hosts[j], p, a0) && name in Taken(a0);
    var id :| id in a0.keys[..a0.next] && LockName(id) == name;
    var m :| 0 <= m < a0.next && a0.keys[..a0.next][m] == id;
    ThroughKeeps(isUuid, hosts, actions, p, j, k);
    KeysAsked(isUuid, hosts, actions, k, p);
    var i := RefusedBefore(isUuid, hosts, actions, k, p);
    assert a.keys[m] == id && a.keys[a.next] in a.keys;
    assert Less(LockName(a.keys[m]), LockName(a.keys[a.next]));
  }

  /** If all attempts take their lock files in one order, an attempt is refused only beside another one that is not: one
      that holds the lock file wanted or a later one. */
  lemma {:induction false} SomeoneGetsThrough(isUuid: UuidTest, hosts: seq<Host>, actions: seq<Action>, i: nat, o: Owner)
    requires Trace(isUuid, hosts, actions) && AllAscend(actions) && RefusedAt(isUuid, hosts, actions, i, o)
    ensures exists j: nat, p :: GetsThrough(hosts, j, p) && HoldsFrom(hosts[j], p, Wanted(hosts[i].attempts[o]))
    decreases Above(actions, Wanted(hosts[i].attempts[o]))
  {
    var name := Wanted(hosts[i].attempts[o]);
    var p := hosts[i].locks[name];
    TraceInv(isUuid, hosts, actions, i);
    assert HoldsFrom(hosts[i], p, name);
    if !GetsThrough(hosts, i, p) {
      var k: nat :| Through(hosts, p, i, k) && hosts[k].attempts[p].phase == Failed(true);
      HolderWantsLater(isUuid, hosts, actions, i, p, name, k);
      var i' := RefusedBefore(isUuid, hosts, actions, k, p);
      var higher := Wanted(hosts[i'].attempts[p]);
      FewerAbove(actions, name, higher);
      SomeoneGetsThrough(isUuid, hosts, actions, i', p);
      var j: nat, q :| GetsThrough(hosts, j, q) && HoldsFrom(hosts[j], q, higher);
      LaterHolds(hosts[j], q, name, higher);
    }
  }

  lemma LaterHolds(h: Host, p: Owner, name: string, higher: string)
    requires Less(name, higher) && HoldsFrom(h, p, higher)
    ensures HoldsFrom(h, p, name)
  {
    var k :| k in h.locks && h.locks[k] == p && (k == higher || Less(higher, k));
    if k != higher {
      LessTransitive(name, higher, k);
    }
  }

  // ----- exactly when all may be refused

  /** A run that nobody has left yet. */
  ghost predicate QuietTrace(isUuid: UuidTest, hosts: seq<Host>, actions: seq<Action>) {
    Trace(isUuid, hosts, actions) && forall i :: 0 <= i < |actions| ==> hosts[i].attempts.Keys <= hosts[i + 1].attempts.Keys
  }

  /** Each owner is at work on its own keys, and has found a lock file held. */
  ghost predicate AllRefused(h: Host, wants: map<Owner, seq<string>>) {
    && h.attempts.Keys == wants.Keys
    && forall o :: o in wants ==> h.attempts[o].keys == wants[o] && h.attempts[o].phase == Failed(true)
  }

  /** The owner has taken its first `n` lock files, and the next one is with an owner that has taken it. */
  ghost predicate Waits(isUuid: UuidTest, wants: map<Owner, seq<string>>, cut: map<Owner, nat>, o: Owner)
    requires o in wants && o in cut
  {
    && cut[o] < |wants[o]| && LocksDistinct(wants[o][..cut[o]])
    && (forall m :: 0 <= m <= cut[o] ==> ValidId(isUuid, wants[o][m]))
    && exists p :: p in wants && LockName(wants[o][cut[o]]) in TakenBy(wants, cut, p)
  }

  ghost function TakenBy(wants: map<Owner, seq<string>>, cut: map<Owner, nat>, o: Owner): set<string> {
    if o in wants && o in cut && cut[o] <= |wants[o]| then LockNames(wants[o][..cut[o]]) else {}
  }

  /** Two owners have taken no lock file in common. */
  ghost predicate Apart(wants: map<Owner, seq<string>>, cut: map<Owner, nat>, o: Owner, p: Owner) {
    o == p || TakenBy(wants, cut, o) !! TakenBy(wants, cut, p)
  }

  ghost predicate AllApart(wants: map<Owner, seq<string>>, cut: map<Owner, nat>) {
    forall o, p {:trigger Apart(wants, cut, o, p)} :: o in wants && p in wants ==> Apart(wants, cut, o, p)
  }

  /** Everybody waits for somebody. */
  ghost predicate CircularWait(isUuid: UuidTest, wants: map<Owner, seq<string>>, cut: map<Owner, nat>) {
    && cut.Keys == wants.Keys && AllApart(wants, cut)
    && forall o {:trigger Waits(isUuid, wants, cut, o)} :: o in wants ==> Waits(isUuid, wants, cut, o)
  }

  ghost predicate AscendAll(wants: map<Owner, seq<string>>) {
    forall o {:trigger Ascends(wants[o])} :: o in wants ==> Ascends(wants[o])
  }

  /** What a run that nobody has left keeps: keys taken are valid, and what refused an attempt is still held. */
  ghost predicate Standing(isUuid: UuidTest, h: Host) {
    forall o :: o in h.attempts ==> StandsBy(isUuid, h, h.attempts[o])
  }

  ghost predicate StandsBy(isUuid: UuidTest, h: Host, a: Attempt) {
    && a.next <= |a.keys| && (forall m :: 0 <= m < a.next ==> ValidId(isUuid, a.keys[m]))
    && (a.phase == Failed(true) ==> a.next < |a.keys| && ValidId(isUuid, a.keys[a.next]) && Wanted(a) in h.locks)
  }

  lemma LocksKept(isUuid: UuidTest, h: Host, action: Action)
    requires Inv(h) && h.attempts.Keys <= Next(isUuid, h, action).attempts.Keys
    ensures h.locks.Keys <= Next(isUuid, h, action).locks.Keys
  {
    forall k | k in h.locks
      ensures k in Next(isUuid, h, action).locks
    {
      assert h.locks[k] in h.attempts;
    }
  }

  lemma StandsByStep(isUuid: UuidTest, h: Host, action: Action, o: Owner)
    requires o in h.attempts && StandsBy(isUuid, h, h.attempts[o])
    requires o in Next(isUuid, h, action).attempts && h.locks.Keys <= Next(isUuid, h, action).locks.Keys
    ensures StandsBy(isUuid, Next(isUuid, h, action), Next(isUuid, h, action).attempts[o])
  {
    AttemptStep(isUuid, h, action, o);
  }

  lemma StandingStep(isUuid: UuidTest, h: Host, action: Action)
    requires Inv(h) && Standing(isUuid, h) && h.attempts.Keys <= Next(isUuid, h, action).attempts.Keys
    ensures Standing(isUuid, Next(isUuid, h, action))
  {
    var h' := Next(isUuid, h, action);
    LocksKept(isUuid, h, action);
    forall o | o in h'.attempts
      ensures StandsBy(isUuid, h', h'.attempts[o])
    {
      AttemptStep(isUuid, h, action, o);
      if o in h.attempts {
        StandsByStep(isUuid, h, action, o);
      }
    }
  }

  lemma {:induction false} QuietStands(isUuid: UuidTest, hosts: seq<Host>, actions: seq<Action>, i: nat)
    requires QuietTrace(isUuid, hosts, actions) && i < |hosts|
    ensures Standing(isUuid, hosts[i])
  {
    if i > 0 {
      QuietStands(isUuid, hosts, actions, i - 1);
      TraceInv(isUuid, hosts, actions, i - 1);
      assert StepAt(isUuid, hosts, actions, i - 1);
      StandingStep(isUuid, hosts[i - 1], actions[i - 1]);
    }
  }

  /** Where the attempts have got to. */
  ghost predicate CutOf(h: Host, wants: map<Owner, seq<string>>, cut: map<Owner, nat>) {
    && h.attempts.Keys == wants.Keys == cut.Keys
    && forall o :: o in wants ==> h.attempts[o].keys == wants[o] && h.attempts[o].next == cut[o]
  }

  lemma TakenIs(isUuid: UuidTest, h: Host, wants: map<Owner, seq<string>>, cut: map<Owner, nat>, o: Owner)
    requires Inv(h) && CutOf(h, wants, cut) && o in wants
    ensures TakenBy(wants, cut, o) == Taken(h.attempts[o])
    ensures cut[o] <= |wants[o]| && LocksDistinct(wants[o][..cut[o]])
    ensures forall k :: k in TakenBy(wants, cut, o) ==> k in h.locks && h.locks[k] == o
  {
    assert WellHeld(h, o, h.attempts[o]);
  }

  lemma RefusedWaits(isUuid: UuidTest, h: Host, wants: map<Owner, seq<string>>, cut: map<Owner, nat>, o: Owner)
    requires Inv(h) && Standing(isUuid, h) && CutOf(h, wants, cut) && o in wants
    requires h.attempts[o].phase == Failed(true)
    ensures Waits(isUuid, wants, cut, o)
  {
    var a := h.attempts[o];
    assert StandsBy(isUuid, h, a);
    TakenIs(isUuid, h, wants, cut, o);
    var p := h.locks[Wanted(a)];
    TakenIs(isUuid, h, wants, cut, p);
    assert p in wants && Wanted(a) in TakenBy(wants, cut, p);
  }

  lemma CutApart(isUuid: UuidTest, h: Host, wants: map<Owner, seq<string>>, cut: map<Owner, nat>, o: Owner, p: Owner)
    requires Inv(h) && CutOf(h, wants, cut) && o in wants && p in wants
    ensures Apart(wants, cut, o, p)
  {
    TakenIs(isUuid, h, wants, cut, o);
    TakenIs(isUuid, h, wants, cut, p);
  }

  lemma CutExists(h: Host, wants: map<Owner, seq<string>>) returns (cut: map<Owner, nat>)
    requires AllRefused(h, wants)
    ensures CutOf(h, wants, cut)
  {
    cut := map o | o in wants :: h.attempts[o].next;
  }

  lemma RefusedWait(isUuid: UuidTest, h: Host, wants: map<Owner, seq<string>>) returns (cut: map<Owner, nat>)
    requires Inv(h) && Standing(isUuid, h) && AllRefused(h, wants)
    ensures CircularWait(isUuid, wants, cut)
  {
    cut := CutExists(h, wants);
    forall o | o in wants
      ensures Waits(isUuid, wants, cut, o)
    {
      RefusedWaits(isUuid, h, wants, cut, o);
    }
    forall o, p | o in wants && p in wants
      ensures Apart(wants, cut, o, p)
    {
      CutApart(isUuid, h, wants, cut, o, p);
    }
  }

  ghost function WantedBy(wants: map<Owner, seq<string>>, cut: map<Owner, nat>, o: Owner): string {
    if o in wants && o in cut && cut[o] < |wants[o]| then LockName(wants[o][cut[o]]) else ""
  }

  /** In one order, what is waited for is with an owner that waits for something later. */
  lemma WaitsForLater(isUuid: UuidTest, wants: map<Owner, seq<string>>, cut: map<Owner, nat>, o: Owner) returns (p: Owner)
    requires CircularWait(isUuid, wants, cut) && o in wants && AscendAll(wants)
    ensures p in wants && Less(WantedBy(wants, cut, o), WantedBy(wants, cut, p))
  {
    assert Waits(isUuid, wants, cut, o);
    p :| p in wants && WantedBy(wants, cut, o) in TakenBy(wants, cut, p);
    assert Waits(isUuid, wants, cut, p) && Ascends(wants[p]);
    var id :| id in wants[p][..cut[p]] && LockName(id) == WantedBy(wants, cut, o);
    var m :| 0 <= m < cut[p] && wants[p][..cut[p]][m] == id;
    assert wants[p][m] == id;
  }

  ghost function Later(wants: map<Owner, seq<string>>, cut: map<Owner, nat>, name: string): set<string> {
    set o | o in wants && Less(name, WantedBy(wants, cut, o)) :: WantedBy(wants, cut, o)
  }

  lemma FewerLater(wants: map<Owner, seq<string>>, cut: map<Owner, nat>, name: string, p: Owner)
    requires p in wants && Less(name, WantedBy(wants, cut, p))
    ensures Later(wants, cut, WantedBy(wants, cut, p)) < Later(wants, cut, name)
  {
    var higher := WantedBy(wants, cut, p);
    LessIrreflexive(higher);
    assert higher in Later(wants, cut, name) && higher !in Later(wants, cut, higher);
    forall k | k in Later(wants, cut, higher)
      ensures k in Later(wants, cut, name)
    {
      LessTransitive(name, higher, k);
    }
  }

  lemma {:induction false} EndlessWait(isUuid: UuidTest, wants: map<Owner, seq<string>>, cut: map<Owner, nat>, o: Owner)
    requires CircularWait(isUuid, wants, cut) && o in wants && AscendAll(wants)
    ensures false
    decreases Later(wants, cut, WantedBy(wants, cut, o))
  {
    var p := WaitsForLater(isUuid, wants, cut, o);
    FewerLater(wants, cut, WantedBy(wants, cut, o), p);
    EndlessWait(isUuid, wants, cut, p);
  }

  /** Taking lock files in one order leaves no circle of waiting. */
  lemma AscendingDoNotWait(isUuid: UuidTest, wants: map<Owner, seq<string>>, cut: map<Owner, nat>)
    requires wants != map[] && AscendAll(wants)
    ensures !CircularWait(isUuid, wants, cut)
  {
    if CircularWait(isUuid, wants, cut) {
      var o :| o in wants;
      EndlessWait(isUuid, wants, cut, o);
    }
  }

  // ----- such a run

  lemma Longer(isUuid: UuidTest, hosts: seq<Host>, actions: seq<Action>, action: Action)
    returns (hosts': seq<Host>, actions': seq<Action>)
    requires QuietTrace(isUuid, hosts, actions)
    requires hosts[|actions|].attempts.Keys <= Next(isUuid, hosts[|actions|], action).attempts.Keys
    ensures QuietTrace(isUuid, hosts', actions') && hosts'[|actions'|] == Next(isUuid, hosts[|actions|], action)
  {
    hosts', actions' := hosts + [Next(isUuid, hosts[|actions|], action)], actions + [action];
    forall i {:trigger StepAt(isUuid, hosts', actions', i)} | 0 <= i < |actions'|
      ensures StepAt(isUuid, hosts', actions', i) && hosts'[i].attempts.Keys <= hosts'[i + 1].attempts.Keys
    {
      if i < |actions| {
        assert StepAt(isUuid, hosts, actions, i);
      }
    }
  }

  function Placed(keys: seq<string>, cut: nat, taken: bool, refused: bool): Attempt {
    Attempt(keys, if taken then cut else 0, if refused then Failed(true) else Acquiring)
  }

  /** The owners in `taken` hold all they take before they wait, those in `refused` have been refused. */
  ghost predicate Arranged(h: Host, wants: map<Owner, seq<string>>, cut: map<Owner, nat>, taken: set<Owner>, refused: set<Owner>) {
    && h.attempts.Keys == wants.Keys == cut.Keys
    && (forall o :: o in wants ==> h.attempts[o] == Placed(wants[o], cut[o], o in taken, o in refused))
    && (forall k :: k in h.locks <==> HeldIn(wants, cut, taken, k))
  }

  ghost predicate HeldIn(wants: map<Owner, seq<string>>, cut: map<Owner, nat>, taken: set<Owner>, k: string) {
    exists o :: o in taken && k in TakenBy(wants, cut, o)
  }

  /** Between two of its lock files, owner `o` has taken `n` of them. */
  ghost predicate Partly(h: Host, wants: map<Owner, seq<string>>, cut: map<Owner, nat>, taken: set<Owner>, o: Owner, n: nat)
    requires o in wants && n <= |wants[o]|
  {
    && h.attempts.Keys == wants.Keys == cut.Keys
    && (forall p :: p in wants && p != o ==> h.attempts[p] == Placed(wants[p], cut[p], p in taken, false))
    && h.attempts[o] == Attempt(wants[o], n, Acquiring)
    && (forall k :: k in h.locks <==> HeldIn(wants, cut, taken, k) || k in LockNames(wants[o][..n]))
  }

  lemma NextIsFree(isUuid: UuidTest, h: Host, wants: map<Owner, seq<string>>, cut: map<Owner, nat>, taken: set<Owner>,
                   o: Owner, n: nat)
    requires CircularWait(isUuid, wants, cut) && o in wants && o !in taken && taken <= wants.Keys
    requires n < cut[o] <= |wants[o]| && Partly(h, wants, cut, taken, o, n)
    ensures ValidId(isUuid, wants[o][n]) && LockName(wants[o][n]) !in h.locks
  {
    assert Waits(isUuid, wants, cut, o);
    var prefix, name := wants[o][..cut[o]], LockName(wants[o][n]);
    assert prefix[n] == wants[o][n] && prefix[n] in prefix;
    forall p | p in taken
      ensures name !in TakenBy(wants, cut, p)
    {
      assert Apart(wants, cut, o, p);
    }
    forall id | id in wants[o][..n]
      ensures LockName(id) != name
    {
      var m :| 0 <= m < n && wants[o][..n][m] == id;
      assert prefix[m] == id && LockName(prefix[m]) != LockName(prefix[n]);
    }
  }

  lemma TakeStep(isUuid: UuidTest, h: Host, wants: map<Owner, seq<string>>, cut: map<Owner, nat>, taken: set<Owner>,
                 o: Owner, n: nat)
    requires o in wants && n < |wants[o]| && Partly(h, wants, cut, taken, o, n)
    requires ValidId(isUuid, wants[o][n]) && LockName(wants[o][n]) !in h.locks
    ensures Partly(Next(isUuid, h, Advance(o, true)), wants, cut, taken, o, n + 1)
  {
    LockNamesNext(wants[o], n);
  }

  lemma TakeOne(isUuid: UuidTest, hosts: seq<Host>, actions: seq<Action>, wants: map<Owner, seq<string>>, cut: map<Owner, nat>,
                taken: set<Owner>, o: Owner)
    returns (hosts': seq<Host>, actions': seq<Action>)
    requires QuietTrace(isUuid, hosts, actions) && CircularWait(isUuid, wants, cut)
    requires Arranged(hosts[|actions|], wants, cut, taken, {}) && o in wants && o !in taken && taken <= wants.Keys
    ensures QuietTrace(isUuid, hosts', actions') && Arranged(hosts'[|actions'|], wants, cut, taken + {o}, {})
  {
    hosts', actions' := hosts, actions;
    assert Waits(isUuid, wants, cut, o);
    assert LockNames(wants[o][..0]) == {};
    for n := 0 to cut[o]
      invariant QuietTrace(isUuid, hosts', actions') && Partly(hosts'[|actions'|], wants, cut, taken, o, n)
    {
      NextIsFree(isUuid, hosts'[|actions'|], wants, cut, taken, o, n);
      TakeStep(isUuid, hosts'[|actions'|], wants, cut, taken, o, n);
      hosts', actions' := Longer(isUuid, hosts', actions', Advance(o, true));
    }
    AllTaken(hosts'[|actions'|], wants, cut, taken, o);
  }

  lemma AllTaken(h: Host, wants: map<Owner, seq<string>>, cut: map<Owner, nat>, taken: set<Owner>, o: Owner)
    requires o in wants && o in cut && cut[o] <= |wants[o]| && Partly(h, wants, cut, taken, o, cut[o])
    ensures Arranged(h, wants, cut, taken + {o}, {})
  {
    forall k
      ensures HeldIn(wants, cut, taken + {o}, k) <==> HeldIn(wants, cut, taken, k) || k in TakenBy(wants, cut, o)
    {
      if k in TakenBy(wants, cut, o) {
        assert o in taken + {o};
      }
      if HeldIn(wants, cut, taken, k) {
        var p :| p in taken && k in TakenBy(wants, cut, p);
        assert p in taken + {o};
      }
    }
  }

  lemma RefusedNext(isUuid: UuidTest, h: Host, wants: map<Owner, seq<string>>, cut: map<Owner, nat>, refused: set<Owner>, o: Owner)
    requires CircularWait(isUuid, wants, cut) && o in wants && o !in refused
    requires Arranged(h, wants, cut, wants.Keys, refused)
    ensures Refuses(isUuid, h, Advance(o, true), o) && cut[o] <= |wants[o]|
  {
    assert Waits(isUuid, wants, cut, o);
    var p :| p in wants && LockName(wants[o][cut[o]]) in TakenBy(wants, cut, p);
    assert HeldIn(wants, cut, wants.Keys, LockName(wants[o][cut[o]]));
  }

  lemma RefuseStep(isUuid: UuidTest, h: Host, wants: map<Owner, seq<string>>, cut: map<Owner, nat>, refused: set<Owner>, o: Owner)
    requires o in wants && o !in refused && Arranged(h, wants, cut, wants.Keys, refused)
    requires Refuses(isUuid, h, Advance(o, true), o)
    ensures Arranged(Next(isUuid, h, Advance(o, true)), wants, cut, wants.Keys, refused + {o})
  {
    assert Next(isUuid, h, Advance(o, true)).locks == h.locks;
  }

  ghost function BegunBy(ids: map<Owner, seq<string>>, begun: set<Owner>): map<Owner, Attempt> {
    map o | o in begun && o in ids :: Attempt(SortKeys(ids[o]), 0, Acquiring)
  }

  lemma BegunNext(ids: map<Owner, seq<string>>, begun: set<Owner>, o: Owner)
    requires o in ids
    ensures BegunBy(ids, begun)[o := Attempt(SortKeys(ids[o]), 0, Acquiring)] == BegunBy(ids, begun + {o})
  {}

  lemma BeginAll(isUuid: UuidTest, ids: map<Owner, seq<string>>) returns (hosts: seq<Host>, actions: seq<Action>)
    ensures QuietTrace(isUuid, hosts, actions) && hosts[|actions|] == Host(map[], BegunBy(ids, ids.Keys))
  {
    hosts, actions := [Host(map[], map[])], [];
    var begun: set<Owner> := {};
    assert BegunBy(ids, begun) == map[];
    while begun != ids.Keys
      invariant begun <= ids.Keys
      invariant QuietTrace(isUuid, hosts, actions) && hosts[|actions|] == Host(map[], BegunBy(ids, begun))
      decreases ids.Keys - begun
    {
      var o :| o in ids && o !in begun;
      BegunNext(ids, begun, o);
      hosts, actions := Longer(isUuid, hosts, actions, Begin(o, ids[o]));
      begun := begun + {o};
    }
  }

  ghost function KeysOf(ids: map<Owner, seq<string>>): map<Owner, seq<string>> {
    map o | o in ids :: SortKeys(ids[o])
  }

  lemma BegunIsArranged(h: Host, ids: map<Owner, seq<string>>, cut: map<Owner, nat>)
    requires h == Host(map[], BegunBy(ids, ids.Keys)) && cut.Keys == ids.Keys
    ensures Arranged(h, KeysOf(ids), cut, {}, {})
  {}

  lemma TakeAllOf(isUuid: UuidTest, ids: map<Owner, seq<string>>, cut: map<Owner, nat>)
    returns (hosts: seq<Host>, actions: seq<Action>)
    requires CircularWait(isUuid, KeysOf(ids), cut)
    ensures QuietTrace(isUuid, hosts, actions)
    ensures Arranged(hosts[|actions|], KeysOf(ids), cut, KeysOf(ids).Keys, {})
  {
    var wants := KeysOf(ids);
    hosts, actions := BeginAll(isUuid, ids);
    BegunIsArranged(hosts[|actions|], ids, cut);
    var taken: set<Owner> := {};
    while taken != wants.Keys
      invariant taken <= wants.Keys && QuietTrace(isUuid, hosts, actions)
      invariant Arranged(hosts[|actions|], wants, cut, taken, {})
      decreases wants.Keys - taken
    {
      var o :| o in wants && o !in taken;
      hosts, actions := TakeOne(isUuid, hosts, actions, wants, cut, taken, o);
      taken := taken + {o};
    }
  }

  /** All take what they can, and then all are refused. */
  lemma WaitingRun(isUuid: UuidTest, ids: map<Owner, seq<string>>, cut: map<Owner, nat>)
    returns (hosts: seq<Host>, actions: seq<Action>)
    requires CircularWait(isUuid, KeysOf(ids), cut)
    ensures QuietTrace(isUuid, hosts, actions) && AllRefused(hosts[|actions|], KeysOf(ids))
  {
    var wants := KeysOf(ids);
    hosts, actions := TakeAllOf(isUuid, ids, cut);
    var refused: set<Owner> := {};
    while refused != wants.Keys
      invariant refused <= wants.Keys && QuietTrace(isUuid, hosts, actions)
      invariant Arranged(hosts[|actions|], wants, cut, wants.Keys, refused)
      decreases wants.Keys - refused
    {
      var o :| o in wants && o !in refused;
      RefusedNext(isUuid, hosts[|actions|], wants, cut, refused, o);
      RefuseStep(isUuid, hosts[|actions|], wants, cut, refused, o);
      hosts, actions := Longer(isUuid, hosts, actions, Advance(o, true));
      refused := refused + {o};
    }
  }

  ghost predicate MayAllBeRefused(isUuid: UuidTest, ids: map<Owner, seq<string>>) {
    exists hosts, actions :: QuietTrace(isUuid, hosts, actions) && AllRefused(hosts[|actions|], KeysOf(ids))
  }

  /** Attempts may all come to be refused, with none of them gone yet, exactly when some positions in their lists of keys
      make a circle of waiting. */
  lemma AllRefusedIff(isUuid: UuidTest, ids: map<Owner, seq<string>>)
    ensures MayAllBeRefused(isUuid, ids) <==> exists cut :: CircularWait(isUuid, KeysOf(ids), cut)
  {
    if MayAllBeRefused(isUuid, ids) {
      var hosts, actions :| QuietTrace(isUuid, hosts, actions) && AllRefused(hosts[|actions|], KeysOf(ids));
      TraceInv(isUuid, hosts, actions, |actions|);
      QuietStands(isUuid, hosts, actions, |actions|);
      var cut := RefusedWait(isUuid, hosts[|actions|], KeysOf(ids));
    }
    if cut :| CircularWait(isUuid, KeysOf(ids), cut) {
      var hosts, actions := WaitingRun(isUuid, ids, cut);
    }
  }

  lemma SortPair(a: string, b: string)
    requires Less(a, b)
    ensures SortKeys([a, b]) == [a, b] && SortKeys([b, a]) == [a, b]
  {
    LessIrreflexive(a);
    if Less(b, a) {
      LessTransitive(a, b, a);
    }
    Sorting.SortTwo(Less, a, b);
  }

  /** A device id that starts with a letter of its own. */
  function Spelled(c: char, tail: string): string {
    "GPU-" + ([c] + tail)
  }

  lemma SpelledValid(isUuid: UuidTest, c: char, tail: string)
    requires isUuid([c] + tail)
    ensures ValidId(isUuid, Spelled(c, tail))
  {
    assert Spelled(c, tail)[4..] == [c] + tail;
  }

  lemma SpelledLess(c: char, d: char, tail: string)
    requires c < d
    ensures Less(Spelled(c, tail), Spelled(d, tail))
  {
    LessAfterPrefix("GPU-", [c] + tail, [d] + tail);
  }

  lemma SpelledLock(c: char, d: char, tail: string)
    ensures LockName(Spelled(c, tail)) == LockName(Spelled(d, tail)) <==> NodeId.LowerChar(c) == NodeId.LowerChar(d)
  {
    var a, b := NodeId.Lower(Spelled(c, tail)), NodeId.Lower(Spelled(d, tail));
    assert a[4] == NodeId.LowerChar(c) && b[4] == NodeId.LowerChar(d);
    assert LockName(Spelled(c, tail))[9] == a[4] && LockName(Spelled(d, tail))[9] == b[4];
    forall i | 0 <= i < |a| && i != 4
      ensures a[i] == b[i]
    {
      assert Spelled(c, tail)[i] == Spelled(d, tail)[i];
    }
    if NodeId.LowerChar(c) == NodeId.LowerChar(d) {
      assert a == b;
    }
  }

  /** Two lists of two keys with the same lock files in opposite order. */
  lemma PairWaits(isUuid: UuidTest, a1: string, b1: string, b2: string, a2: string)
    requires LockName(a1) == LockName(a2) && LockName(b1) == LockName(b2) && LockName(a1) != LockName(b1)
    requires ValidId(isUuid, a1) && ValidId(isUuid, b1) && ValidId(isUuid, a2) && ValidId(isUuid, b2)
    ensures CircularWait(isUuid, map[0 := [a1, b1], 1 := [b2, a2]], map[0 := 1, 1 := 1])
  {
    var wants: map<Owner, seq<string>> := map[0 := [a1, b1], 1 := [b2, a2]];
    var cut: map<Owner, nat> := map[0 := 1, 1 := 1];
    assert wants[0][..1] == [a1] && wants[1][..1] == [b2];
    assert TakenBy(wants, cut, 0) == {LockName(a1)} && TakenBy(wants, cut, 1) == {LockName(b2)};
    assert Waits(isUuid, wants, cut, 0) by {
      assert LockName(wants[0][cut[0]]) in TakenBy(wants, cut, 1);
    }
    assert Waits(isUuid, wants, cut, 1) by {
      assert LockName(wants[1][cut[1]]) in TakenBy(wants, cut, 0);
    }
  }

  lemma KeysOfPair(first: seq<string>, second: seq<string>, keys: seq<string>, others: seq<string>)
    requires SortKeys(first) == keys && SortKeys(second) == others
    ensures KeysOf(map[0 := first, 1 := second]) == map[0 := keys, 1 := others]
  {}

  /** Two attempts at the same two devices, spelled so that the one letter sorts before and the other after: they may
      refuse each other, because keys are sorted as they are spelled and lock files are named in lower case. */
  lemma SpellingsMayRefuseEachOther(isUuid: UuidTest, tail: string)
    requires isUuid("A" + tail) && isUuid("b" + tail) && isUuid("a" + tail) && isUuid("B" + tail)
    ensures MayAllBeRefused(isUuid, map[0 := [Spelled('A', tail), Spelled('b', tail)],
                                        1 := [Spelled('a', tail), Spelled('B', tail)]])
  {
    var a1, b1, a2, b2 := Spelled('A', tail), Spelled('b', tail), Spelled('a', tail), Spelled('B', tail);
    var ids: map<Owner, seq<string>> := map[0 := [a1, b1], 1 := [a2, b2]];
    SpelledValid(isUuid, 'A', tail);
    SpelledValid(isUuid, 'b', tail);
    SpelledValid(isUuid, 'a', tail);
    SpelledValid(isUuid, 'B', tail);
    SpelledLock('A', 'a', tail);
    SpelledLock('b', 'B', tail);
    SpelledLock('A', 'b', tail);
    SpelledLess('A', 'b', tail);
    SpelledLess('B', 'a', tail);
    SortPair(a1, b1);
    SortPair(b2, a2);
    KeysOfPair([a1, b1], [a2, b2], [a1, b1], [b2, a2]);
    PairWaits(isUuid, a1, b1, b2, a2);
    AllRefusedIff(isUuid, ids);
  }
}
