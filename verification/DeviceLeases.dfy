/** Exclusive leases on devices: one lock file for each device id, all of them or none. */
module DeviceLeases {
  import opened Wrappers
  import opened Names
  import opened Collections
  import NodeId
  import Sorting

  /** `Uuid::parse_str`, left uninterpreted. */
  type UuidTest = string -> bool

  type Owner = nat

  /** Who holds each lock file. A file lock has at most one holder, also within one process. */
  type Locks = map<string, Owner>

  datatype Refusal = InvalidKey | Busy

  function LockName(id: string): string {
    "cuda-" + NodeId.Lower(id) + ".lock"
  }

  predicate ValidId(isUuid: UuidTest, id: string) {
    "GPU-" <= id && isUuid(id[4..])
  }

  function SortKeys(ids: seq<string>): seq<string> {
    Sorting.Sort(Less, ids)
  }

  lemma LessOrders()
    ensures Sorting.StrictTotal(Less)
  {
    forall a, b
      ensures a == b || Less(a, b) || Less(b, a)
      ensures Less(a, b) ==> !Less(b, a)
    {
      LessTotal(a, b);
      if Less(a, b) && Less(b, a) {
        LessTransitive(a, b, a);
        LessIrreflexive(a);
      }
    }
    forall a, b, c | Less(a, b) && Less(b, c)
      ensures Less(a, c)
    {
      LessTransitive(a, b, c);
    }
  }

  /** Lock files are taken in one order, whatever the order of the ids. */
  lemma KeysInOrder(ids: seq<string>)
    ensures Sorting.Ordered(Less, SortKeys(ids)) && multiset(SortKeys(ids)) == multiset(ids)
  {
    LessOrders();
    Sorting.SortSorts(Less, ids);
    Sorting.SortKeeps(Less, ids);
  }

  // ----- one attempt on its own

  ghost predicate LocksDistinct(ids: seq<string>) {
    DistinctBy(LockName, ids)
  }

  /** An attempt can only succeed on valid ids with different, free lock files. */
  ghost predicate Available(isUuid: UuidTest, locks: Locks, ids: seq<string>) {
    && (forall id :: id in ids ==> ValidId(isUuid, id))
    && LocksDistinct(ids)
    && forall id :: id in ids ==> LockName(id) !in locks
  }

  ghost function LockNames(ids: seq<string>): set<string> {
    set id | id in ids :: LockName(id)
  }

  /** Availability does not depend on the order of the ids. */
  lemma AvailableSorted(isUuid: UuidTest, locks: Locks, ids: seq<string>)
    ensures Available(isUuid, locks, SortKeys(ids)) <==> Available(isUuid, locks, ids)
    ensures LockNames(SortKeys(ids)) == LockNames(ids)
  {
    Sorting.SortKeeps(Less, ids);
    SameMembers(ids, SortKeys(ids));
    if LocksDistinct(ids) {
      SameDistinct(ids, SortKeys(ids));
    }
    if LocksDistinct(SortKeys(ids)) {
      SameDistinct(SortKeys(ids), ids);
    }
  }

  /** Two places with one lock file stay two places in any reordering. */
  lemma SameDistinct(a: seq<string>, b: seq<string>)
    requires multiset(a) == multiset(b) && LocksDistinct(a)
    ensures LocksDistinct(b)
  {
    DistinctByKept(LockName, a, b);
  }

  /** The lock file of key `i` is held, or was just taken for an earlier key. */
  ghost predicate Blocked(locks: Locks, keys: seq<string>, i: nat)
    requires i < |keys|
  {
    LockName(keys[i]) in locks || LockName(keys[i]) in LockNames(keys[..i])
  }

  /** Keys are taken in order; the first that is invalid or blocked says why. */
  ghost predicate RefusedAt(isUuid: UuidTest, locks: Locks, keys: seq<string>, i: nat, refusal: Refusal) {
    && i < |keys|
    && (forall j :: 0 <= j < i ==> ValidId(isUuid, keys[j]) && !Blocked(locks, keys, j))
    && (if ValidId(isUuid, keys[i]) then Blocked(locks, keys, i) && refusal == Busy else refusal == InvalidKey)
  }

  ghost predicate RefusedFor(isUuid: UuidTest, locks: Locks, keys: seq<string>, refusal: Refusal) {
    exists i :: RefusedAt(isUuid, locks, keys, i, refusal)
  }

  /** The lock files of the host user, shared by every Grapher process. */
  class LockDirectory {
    var locks: Locks

    constructor ()
      ensures locks == map[]
    {
      locks := map[];
    }

    /** `acquire_ids`, when nobody else acts meanwhile: all the lock files or none. */
    method AcquireIds(isUuid: UuidTest, owner: Owner, ids: seq<string>) returns (r: Result<seq<string>, Refusal>)
      modifies this
      ensures r.Ok? <==> Available(isUuid, old(locks), ids)
      ensures r.Ok? ==> Elements(r.value) == LockNames(ids)
      ensures r.Ok? ==> locks == old(locks) + map k | k in LockNames(ids) :: owner
      ensures r.Err? ==> locks == old(locks)
      ensures r.Err? ==> RefusedFor(isUuid, old(locks), SortKeys(ids), r.error)
    {
      ghost var before := locks;
      var keys := SortKeys(ids);
      AvailableSorted(isUuid, before, ids);
      var files: seq<string> := [];
      for i := 0 to |keys|
        invariant Held(isUuid, before, keys, i, files, owner, locks)
      {
        var id := keys[i];
        var name := LockName(id);
        assert id in keys;
        HeldNext(isUuid, before, keys, i, files, owner, locks);
        if !ValidId(isUuid, id) || name in locks {
          var refusal := if ValidId(isUuid, id) then Busy else InvalidKey;
          ghost var holding := locks;
          locks := map k | k in locks && k !in files :: locks[k];
          ReleasesAll(isUuid, before, keys, i, files, owner, holding, locks);
          StopsHere(isUuid, before, keys, i, files, owner, holding);
          return Err(refusal);
        }
        locks := locks[name := owner];
        files := files + [name];
      }
      assert keys[..|keys|] == keys;
      r := Ok(files);
    }
  }

  /** The first `n` keys are locked, and nothing else has changed. */
  ghost predicate Held(isUuid: UuidTest, before: Locks, keys: seq<string>, n: nat, files: seq<string>, owner: Owner, locks: Locks)
    requires n <= |keys|
  {
    && Available(isUuid, before, keys[..n])
    && Elements(files) == LockNames(keys[..n])
    && locks == Taking(before, LockNames(keys[..n]), owner)
  }

  ghost function Taking(before: Locks, names: set<string>, owner: Owner): Locks {
    before + map k | k in names :: owner
  }

  lemma TakingOne(before: Locks, names: set<string>, name: string, owner: Owner)
    ensures Taking(before, names, owner)[name := owner] == Taking(before, names + {name}, owner)
    ensures name !in Taking(before, names, owner) <==> name !in before && name !in names
  {
  }

  lemma LockNamesNext(keys: seq<string>, n: nat)
    requires n < |keys|
    ensures LockNames(keys[..n + 1]) == LockNames(keys[..n]) + {LockName(keys[n])}
    ensures keys[n] in keys
  {
    assert keys[..n + 1] == keys[..n] + [keys[n]];
  }

  lemma AvailableNext(isUuid: UuidTest, before: Locks, keys: seq<string>, n: nat)
    requires n < |keys| && Available(isUuid, before, keys[..n])
    requires ValidId(isUuid, keys[n]) && LockName(keys[n]) !in before
    requires LockName(keys[n]) !in LockNames(keys[..n])
    ensures Available(isUuid, before, keys[..n + 1])
  {
    var longer := keys[..n + 1];
    assert longer == keys[..n] + [keys[n]];
    forall i, j | 0 <= i < j < |longer|
      ensures LockName(longer[i]) != LockName(longer[j])
    {
      assert longer[i] == keys[..n][i] && keys[..n][i] in keys[..n];
      assert LockName(longer[i]) in LockNames(keys[..n]);
      assert j < n ==> longer[j] == keys[..n][j];
    }
  }

  lemma TakenTwice(isUuid: UuidTest, before: Locks, keys: seq<string>, n: nat)
    requires n < |keys| && LockName(keys[n]) in LockNames(keys[..n])
    ensures !Available(isUuid, before, keys)
  {
    var id :| id in keys[..n] && LockName(id) == LockName(keys[n]);
    var i :| 0 <= i < n && keys[..n][i] == id;
    assert LockName(keys[i]) == LockName(keys[n]);
  }

  lemma HeldNext(isUuid: UuidTest, before: Locks, keys: seq<string>, n: nat, files: seq<string>, owner: Owner, locks: Locks)
    requires n < |keys| && Held(isUuid, before, keys, n, files, owner, locks)
    ensures ValidId(isUuid, keys[n]) && LockName(keys[n]) !in locks ==>
      Held(isUuid, before, keys, n + 1, files + [LockName(keys[n])], owner, locks[LockName(keys[n]) := owner])
    ensures !ValidId(isUuid, keys[n]) || LockName(keys[n]) in locks ==> !Available(isUuid, before, keys)
  {
    var name := LockName(keys[n]);
    LockNamesNext(keys, n);
    if ValidId(isUuid, keys[n]) {
      if name !in locks {
        AvailableNext(isUuid, before, keys, n);
        TakingOne(before, LockNames(keys[..n]), name, owner);
        assert Elements(files + [name]) == Elements(files) + {name};
      } else if name !in before {
        TakingOne(before, LockNames(keys[..n]), name, owner);
        TakenTwice(isUuid, before, keys, n);
      }
    }
  }

  lemma NotEarlier(keys: seq<string>, n: nat, j: nat)
    requires j < n <= |keys| && LocksDistinct(keys[..n])
    ensures LockName(keys[j]) !in LockNames(keys[..j])
  {
    forall id | id in keys[..j]
      ensures LockName(id) != LockName(keys[j])
    {
      var i :| 0 <= i < j && keys[..j][i] == id;
      assert keys[..n][i] == keys[i] && keys[..n][j] == keys[j];
    }
  }

  lemma StopsHere(isUuid: UuidTest, before: Locks, keys: seq<string>, n: nat, files: seq<string>, owner: Owner, locks: Locks)
    requires n < |keys| && Held(isUuid, before, keys, n, files, owner, locks)
    requires !ValidId(isUuid, keys[n]) || LockName(keys[n]) in locks
    ensures RefusedFor(isUuid, before, keys, if ValidId(isUuid, keys[n]) then Busy else InvalidKey)
  {
    forall j: nat | j < n
      ensures ValidId(isUuid, keys[j]) && !Blocked(before, keys, j)
    {
      assert keys[..n][j] == keys[j] && keys[j] in keys[..n];
      NotEarlier(keys, n, j);
    }
    TakingOne(before, LockNames(keys[..n]), LockName(keys[n]), owner);
    assert RefusedAt(isUuid, before, keys, n, if ValidId(isUuid, keys[n]) then Busy else InvalidKey);
  }

  lemma ReleasesAll(isUuid: UuidTest, before: Locks, keys: seq<string>, n: nat, files: seq<string>, owner: Owner,
                    locks: Locks, after: Locks)
    requires n <= |keys| && Held(isUuid, before, keys, n, files, owner, locks)
    requires after == map k | k in locks && k !in files :: locks[k]
    ensures after == before
  {
    assert forall k :: k in files <==> k in Elements(files);
    assert forall k :: k in LockNames(keys[..n]) ==> k !in before;
  }

  // ----- attempts of many processes, one lock at a time

  /** `Probing` is the device identity check made with all the locks held. A failed attempt, whether it found a lock file
      held or something else went wrong, still has to close the lock files it took. */
  datatype Phase = Acquiring | Probing | Leased | Failed(busy: bool)

  datatype Attempt = Attempt(keys: seq<string>, next: nat, phase: Phase)

  datatype Host = Host(locks: Locks, attempts: map<Owner, Attempt>)

  /** `Release` is a lease dropped, or a process that ends: the system closes its lock files. */
  datatype Action = Begin(owner: Owner, ids: seq<string>) | Advance(owner: Owner, probeOk: bool) | Release(owner: Owner)

  function Released(h: Host, owner: Owner): Host {
    Host(map k | k in h.locks && h.locks[k] != owner :: h.locks[k], h.attempts - {owner})
  }

  function Advanced(isUuid: UuidTest, h: Host, owner: Owner, probeOk: bool): Host
    requires owner in h.attempts
  {
    var a := h.attempts[owner];
    match a.phase
    case Acquiring =>
      if a.next >= |a.keys| then h.(attempts := h.attempts[owner := a.(phase := Probing)])
      else
        var name := LockName(a.keys[a.next]);
        if !ValidId(isUuid, a.keys[a.next]) || name in h.locks then
          h.(attempts := h.attempts[owner := a.(phase := Failed(ValidId(isUuid, a.keys[a.next])))])
        else Host(h.locks[name := owner], h.attempts[owner := a.(next := a.next + 1)])
    case Probing =>
      h.(attempts := h.attempts[owner := a.(phase := if probeOk then Leased else Failed(false))])
    case Leased => h
    case Failed(_) => Released(h, owner)
  }

  function Next(isUuid: UuidTest, h: Host, action: Action): Host {
    match action
    case Begin(owner, ids) =>
      if owner in h.attempts then h else h.(attempts := h.attempts[owner := Attempt(SortKeys(ids), 0, Acquiring)])
    case Advance(owner, probeOk) => if owner in h.attempts then Advanced(isUuid, h, owner, probeOk) else h
    case Release(owner) => Released(h, owner)
  }

  function Run(isUuid: UuidTest, h: Host, actions: seq<Action>): Host
    decreases |actions|
  {
    if actions == [] then h else Run(isUuid, Next(isUuid, h, actions[0]), actions[1..])
  }

  ghost function Taken(a: Attempt): set<string> {
    if a.next <= |a.keys| then LockNames(a.keys[..a.next]) else {}
  }

  ghost predicate WellHeld(h: Host, owner: Owner, a: Attempt) {
    && a.next <= |a.keys| && (a.phase.Probing? || a.phase.Leased? ==> a.next == |a.keys|)
    && LocksDistinct(a.keys[..a.next])
    && forall k :: k in Taken(a) ==> k in h.locks && h.locks[k] == owner
  }

  /** Every lock file is held by a live attempt that took it, and by no other. */
  ghost predicate Inv(h: Host) {
    && (forall o :: o in h.attempts ==> WellHeld(h, o, h.attempts[o]))
    && (forall k :: k in h.locks ==> h.locks[k] in h.attempts && k in Taken(h.attempts[h.locks[k]]))
  }

  lemma ReleasedKeepsInv(h: Host, owner: Owner)
    requires Inv(h)
    ensures Inv(Released(h, owner))
    ensures owner in h.attempts ==> forall k :: k in Taken(h.attempts[owner]) ==> k !in Released(h, owner).locks
    ensures forall o :: o in h.attempts && o != owner ==>
      o in Released(h, owner).attempts && Released(h, owner).attempts[o] == h.attempts[o]
  {
    var h' := Released(h, owner);
    forall o | o in h'.attempts
      ensures WellHeld(h', o, h'.attempts[o])
    {
      assert WellHeld(h, o, h.attempts[o]);
    }
    if owner in h.attempts {
      assert WellHeld(h, owner, h.attempts[owner]);
    }
  }

  lemma TakeKeepsInv(isUuid: UuidTest, h: Host, owner: Owner)
    requires Inv(h) && owner in h.attempts && h.attempts[owner].phase == Acquiring
    requires h.attempts[owner].next < |h.attempts[owner].keys|
    requires LockName(h.attempts[owner].keys[h.attempts[owner].next]) !in h.locks
    ensures var a := h.attempts[owner];
      Inv(Host(h.locks[LockName(a.keys[a.next]) := owner], h.attempts[owner := a.(next := a.next + 1)]))
  {
    var a := h.attempts[owner];
    var name := LockName(a.keys[a.next]);
    var a' := a.(next := a.next + 1);
    var h' := Host(h.locks[name := owner], h.attempts[owner := a']);
    assert WellHeld(h, owner, a);
    LockNamesNext(a.keys, a.next);
    DistinctNext(a.keys, a.next);
    assert WellHeld(h', owner, a');
    forall o | o in h'.attempts
      ensures WellHeld(h', o, h'.attempts[o])
    {
      if o != owner {
        assert WellHeld(h, o, h.attempts[o]);
      }
    }
  }

  lemma DistinctNext(keys: seq<string>, n: nat)
    requires n < |keys| && LocksDistinct(keys[..n]) && LockName(keys[n]) !in LockNames(keys[..n])
    ensures LocksDistinct(keys[..n + 1])
  {
    var longer := keys[..n + 1];
    forall i, j | 0 <= i < j < |longer|
      ensures LockName(longer[i]) != LockName(longer[j])
    {
      assert longer[i] == keys[..n][i] && keys[..n][i] in keys[..n];
      assert LockName(longer[i]) in LockNames(keys[..n]);
      assert j < n ==> longer[j] == keys[..n][j];
    }
  }

  lemma PhaseKeepsInv(h: Host, owner: Owner, phase: Phase)
    requires Inv(h) && owner in h.attempts
    requires phase.Probing? || phase.Leased? ==> h.attempts[owner].next == |h.attempts[owner].keys|
    ensures Inv(h.(attempts := h.attempts[owner := h.attempts[owner].(phase := phase)]))
  {
    var h' := h.(attempts := h.attempts[owner := h.attempts[owner].(phase := phase)]);
    assert Taken(h'.attempts[owner]) == Taken(h.attempts[owner]);
    forall o | o in h'.attempts
      ensures WellHeld(h', o, h'.attempts[o])
    {
      assert WellHeld(h, o, h.attempts[o]);
    }
  }

  lemma BeginKeepsInv(h: Host, owner: Owner, keys: seq<string>)
    requires Inv(h) && owner !in h.attempts
    ensures Inv(h.(attempts := h.attempts[owner := Attempt(keys, 0, Acquiring)]))
  {
    var h' := h.(attempts := h.attempts[owner := Attempt(keys, 0, Acquiring)]);
    forall o | o in h'.attempts
      ensures WellHeld(h', o, h'.attempts[o])
    {
      if o in h.attempts {
        assert WellHeld(h, o, h.attempts[o]);
      }
    }
  }

  lemma AdvanceKeepsInv(isUuid: UuidTest, h: Host, owner: Owner, probeOk: bool)
    requires Inv(h) && owner in h.attempts
    ensures Inv(Advanced(isUuid, h, owner, probeOk))
  {
    var a := h.attempts[owner];
    assert WellHeld(h, owner, a);
    var h' := Advanced(isUuid, h, owner, probeOk);
    if a.phase.Failed? {
      ReleasedKeepsInv(h, owner);
    } else if a.phase == Acquiring && a.next < |a.keys| && h'.attempts[owner].phase == Acquiring {
      TakeKeepsInv(isUuid, h, owner);
    } else {
      PhaseKeepsInv(h, owner, h'.attempts[owner].phase);
    }
  }

  lemma NextKeepsInv(isUuid: UuidTest, h: Host, action: Action)
    requires Inv(h)
    ensures Inv(Next(isUuid, h, action))
  {
    match action
    case Begin(owner, ids) =>
      if owner !in h.attempts {
        BeginKeepsInv(h, owner, SortKeys(ids));
      }
    case Advance(owner, probeOk) =>
      if owner in h.attempts {
        AdvanceKeepsInv(isUuid, h, owner, probeOk);
      }
    case Release(owner) => ReleasedKeepsInv(h, owner);
  }

  /** Over every interleaving of attempts, drops and process ends. */
  lemma {:induction false} RunKeepsInv(isUuid: UuidTest, h: Host, actions: seq<Action>)
    requires Inv(h)
    ensures Inv(Run(isUuid, h, actions))
    decreases |actions|
  {
    if actions != [] {
      NextKeepsInv(isUuid, h, actions[0]);
      RunKeepsInv(isUuid, Next(isUuid, h, actions[0]), actions[1..]);
    }
  }

  /** Main result: in every reachable state two attempts share no lock file, and a lease holds the lock
      file of every device it asked for. */
  lemma LeasesExclusive(isUuid: UuidTest, actions: seq<Action>, a: Owner, b: Owner)
    ensures var h := Run(isUuid, Host(map[], map[]), actions);
      && (a in h.attempts && b in h.attempts && a != b ==> Taken(h.attempts[a]) !! Taken(h.attempts[b]))
      && (a in h.attempts && h.attempts[a].phase == Leased ==>
           forall id :: id in h.attempts[a].keys ==> LockName(id) in h.locks && h.locks[LockName(id)] == a)
  {
    RunKeepsInv(isUuid, Host(map[], map[]), actions);
    var h := Run(isUuid, Host(map[], map[]), actions);
    if a in h.attempts {
      var t := h.attempts[a];
      assert WellHeld(h, a, t);
      if t.phase == Leased {
        assert t.keys[..t.next] == t.keys;
        forall id | id in t.keys
          ensures LockName(id) in Taken(t)
        {
        }
      }
      if b in h.attempts {
        assert WellHeld(h, b, h.attempts[b]);
      }
    }
  }

  /** A step that ends an attempt leaves none of the lock files it took held, and touches no other. */
  lemma EndedAttemptHoldsNothing(isUuid: UuidTest, h: Host, action: Action, owner: Owner)
    requires Inv(h) && owner in h.attempts && owner !in Next(isUuid, h, action).attempts
    ensures var h' := Next(isUuid, h, action);
      && (forall k :: k in Taken(h.attempts[owner]) ==> k !in h'.locks)
      && (forall k :: k in h.locks && h.locks[k] != owner ==> k in h'.locks && h'.locks[k] == h.locks[k])
      && (forall k :: k in h'.locks ==> h'.locks[k] != owner)
  {
    EndingReleases(isUuid, h, action, owner);
    assert WellHeld(h, owner, h.attempts[owner]);
  }

  lemma EndingReleases(isUuid: UuidTest, h: Host, action: Action, owner: Owner)
    requires owner in h.attempts && owner !in Next(isUuid, h, action).attempts
    ensures Next(isUuid, h, action) == Released(h, owner)
  {}

  // ----- an attempt nobody interferes with

  function Alone(isUuid: UuidTest, h: Host, owner: Owner, n: nat): Host {
    if n == 0 then h else Next(isUuid, Alone(isUuid, h, owner, n - 1), Advance(owner, true))
  }

  ghost function AfterTaking(h: Host, owner: Owner, keys: seq<string>, n: nat): Host
    requires n <= |keys|
  {
    Host(Taking(h.locks, LockNames(keys[..n]), owner), h.attempts[owner := Attempt(keys, n, Acquiring)])
  }

  lemma NotTakenYet(isUuid: UuidTest, locks: Locks, keys: seq<string>, n: nat)
    requires n < |keys| && Available(isUuid, locks, keys)
    ensures ValidId(isUuid, keys[n]) && LockName(keys[n]) !in locks && LockName(keys[n]) !in LockNames(keys[..n])
  {
    assert keys[n] in keys;
    if LockName(keys[n]) in LockNames(keys[..n]) {
      TakenTwice(isUuid, locks, keys, n);
    }
  }

  lemma AloneTakesOne(isUuid: UuidTest, h: Host, owner: Owner, keys: seq<string>, n: nat)
    requires n < |keys| && Available(isUuid, h.locks, keys)
    ensures Next(isUuid, AfterTaking(h, owner, keys, n), Advance(owner, true)) == AfterTaking(h, owner, keys, n + 1)
  {
    NotTakenYet(isUuid, h.locks, keys, n);
    LockNamesNext(keys, n);
    TakingOne(h.locks, LockNames(keys[..n]), LockName(keys[n]), owner);
  }

  lemma AfterTakingNone(h: Host, owner: Owner, keys: seq<string>)
    requires owner in h.attempts && h.attempts[owner] == Attempt(keys, 0, Acquiring)
    ensures AfterTaking(h, owner, keys, 0) == h
  {
    assert LockNames(keys[..0]) == {};
    assert h.attempts[owner := Attempt(keys, 0, Acquiring)] == h.attempts;
    assert Taking(h.locks, {}, owner) == h.locks;
  }

  lemma AloneTakes(isUuid: UuidTest, h: Host, owner: Owner, keys: seq<string>)
    requires owner in h.attempts && h.attempts[owner] == Attempt(keys, 0, Acquiring)
    requires Available(isUuid, h.locks, keys)
    ensures Alone(isUuid, h, owner, |keys|) == AfterTaking(h, owner, keys, |keys|)
  {
    AfterTakingNone(h, owner, keys);
    for n := 0 to |keys|
      invariant Alone(isUuid, h, owner, n) == AfterTaking(h, owner, keys, n)
    {
      AloneTakesOne(isUuid, h, owner, keys, n);
    }
  }

  lemma LeaseAfterAll(isUuid: UuidTest, h: Host, owner: Owner, keys: seq<string>)
    ensures var full := AfterTaking(h, owner, keys, |keys|);
      var h' := Next(isUuid, Next(isUuid, full, Advance(owner, true)), Advance(owner, true));
      && owner in h'.attempts && h'.attempts[owner].phase == Leased
      && h'.locks == Taking(h.locks, LockNames(keys), owner)
  {
    assert keys[..|keys|] == keys;
  }

  /** Alone, an attempt on valid devices with different, free lock files gets its lease. */
  lemma AloneSucceeds(isUuid: UuidTest, h: Host, owner: Owner, ids: seq<string>)
    requires owner !in h.attempts && Available(isUuid, h.locks, ids)
    ensures var h' := Alone(isUuid, Next(isUuid, h, Begin(owner, ids)), owner, |SortKeys(ids)| + 2);
      && owner in h'.attempts && h'.attempts[owner].phase == Leased
      && h'.locks == Taking(h.locks, LockNames(ids), owner)
  {
    var keys := SortKeys(ids);
    AvailableSorted(isUuid, h.locks, ids);
    AloneLeases(isUuid, Next(isUuid, h, Begin(owner, ids)), owner, keys);
  }

  lemma AloneLeases(isUuid: UuidTest, h: Host, owner: Owner, keys: seq<string>)
    requires owner in h.attempts && h.attempts[owner] == Attempt(keys, 0, Acquiring)
    requires Available(isUuid, h.locks, keys)
    ensures var h' := Alone(isUuid, h, owner, |keys| + 2);
      && owner in h'.attempts && h'.attempts[owner].phase == Leased
      && h'.locks == Taking(h.locks, LockNames(keys), owner)
  {
    AloneTakes(isUuid, h, owner, keys);
    LeaseAfterAll(isUuid, h, owner, keys);
    AloneNext(isUuid, h, owner, |keys|);
    AloneNext(isUuid, h, owner, |keys| + 1);
  }

  lemma AloneNext(isUuid: UuidTest, h: Host, owner: Owner, n: nat)
    ensures Alone(isUuid, h, owner, n + 1) == Next(isUuid, Alone(isUuid, h, owner, n), Advance(owner, true))
  {
  }

  /** Two spellings of one device differ as ids but share a lock file, so asking for both always fails. */
  lemma TwoSpellingsNeverAvailable(isUuid: UuidTest, locks: Locks, id: string, other: string)
    requires NodeId.Lower(id) == NodeId.Lower(other)
    ensures !Available(isUuid, locks, [id, other])
  {
    var ids := [id, other];
    assert LockName(ids[0]) == LockName(ids[1]);
  }
}
