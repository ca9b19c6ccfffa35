/** Why a device lease is refused, with the names of ids and lock files written out. */
module DeviceAnswers {
  import opened Wrappers
  import opened Names
  import opened DeviceLeases
  import NodeId
  import Sorting

  /** The same id with capital letters made small. */
  ghost predicate Lowered(id: string, lower: string) {
    && |lower| == |id|
    && forall i :: 0 <= i < |id| ==>
         lower[i] == if 'A' <= id[i] <= 'Z' then (id[i] as int - 'A' as int + 'a' as int) as char else id[i]
  }

  /** Each id has one lock file: its lower-case spelling between a fixed start and end. */
  lemma LockFile(id: string)
    ensures exists lower :: Lowered(id, lower) && LockName(id) == "cuda-" + lower + ".lock"
  {
    assert Lowered(id, NodeId.Lower(id));
  }

  ghost predicate IsDeviceId(isUuid: UuidTest, id: string) {
    |id| >= 4 && id[0] == 'G' && id[1] == 'P' && id[2] == 'U' && id[3] == '-' && isUuid(id[4..])
  }

  lemma ValidIff(isUuid: UuidTest, id: string)
    ensures ValidId(isUuid, id) <==> IsDeviceId(isUuid, id)
  {
    if |id| >= 4 {
      assert "GPU-" <= id <==> id[..4] == "GPU-";
    }
  }

  /** The lock file of key `i` is held already, or shared with an earlier key. */
  ghost predicate IsTaken(locks: Locks, keys: seq<string>, i: nat)
    requires i < |keys|
  {
    LockName(keys[i]) in locks || exists j :: 0 <= j < i && LockName(keys[j]) == LockName(keys[i])
  }

  /** Key `i` is the first that is no device id or whose lock file is taken. */
  ghost predicate FirstBad(isUuid: UuidTest, locks: Locks, keys: seq<string>, i: nat) {
    && i < |keys| && (!IsDeviceId(isUuid, keys[i]) || IsTaken(locks, keys, i))
    && forall j :: 0 <= j < i ==> IsDeviceId(isUuid, keys[j]) && !IsTaken(locks, keys, j)
  }

  lemma TakenIff(locks: Locks, keys: seq<string>, i: nat)
    requires i < |keys|
    ensures Blocked(locks, keys, i) <==> IsTaken(locks, keys, i)
  {
    if LockName(keys[i]) in LockNames(keys[..i]) {
      var id :| id in keys[..i] && LockName(id) == LockName(keys[i]);
      var j :| 0 <= j < i && keys[..i][j] == id;
      assert LockName(keys[j]) == LockName(keys[i]);
    }
    if j :| 0 <= j < i && LockName(keys[j]) == LockName(keys[i]) {
      assert keys[..i][j] in keys[..i];
    }
  }

  /** A refusal is about the first bad key in sorted order: not a device id, or busy. */
  lemma RefusalIs(isUuid: UuidTest, locks: Locks, ids: seq<string>, refusal: Refusal)
    requires RefusedFor(isUuid, locks, SortKeys(ids), refusal)
    ensures var keys := SortKeys(ids);
      && multiset(keys) == multiset(ids) && Sorting.Ordered(Less, keys)
      && exists i: nat :: FirstBad(isUuid, locks, keys, i)
                     && refusal == if IsDeviceId(isUuid, keys[i]) then Busy else InvalidKey
  {
    var keys := SortKeys(ids);
    KeysInOrder(ids);
    var i: nat :| RefusedAt(isUuid, locks, keys, i, refusal);
    forall j: nat | j < |keys|
      ensures ValidId(isUuid, keys[j]) <==> IsDeviceId(isUuid, keys[j])
      ensures Blocked(locks, keys, j) <==> IsTaken(locks, keys, j)
    {
      ValidIff(isUuid, keys[j]);
      TakenIff(locks, keys, j);
    }
    assert FirstBad(isUuid, locks, keys, i);
  }

  /** Only one key can be the first bad one, so the refusal is determined by the ids and the lock files. */
  lemma RefusalUnique(isUuid: UuidTest, locks: Locks, ids: seq<string>, a: Refusal, b: Refusal)
    requires RefusedFor(isUuid, locks, SortKeys(ids), a) && RefusedFor(isUuid, locks, SortKeys(ids), b)
    ensures a == b
  {
    var keys := SortKeys(ids);
    var i: nat :| RefusedAt(isUuid, locks, keys, i, a);
    var j: nat :| RefusedAt(isUuid, locks, keys, j, b);
    assert i == j;
  }

  /** One step of an attempt among others: the next lock file is taken if the key is a device id and nobody holds the
      file; otherwise the attempt fails, and the failure says whether somebody did. */
  lemma TakesNext(isUuid: UuidTest, h: Host, owner: Owner, probeOk: bool)
    requires owner in h.attempts && h.attempts[owner].phase == Acquiring
    requires h.attempts[owner].next < |h.attempts[owner].keys|
    ensures var a, h' := h.attempts[owner], Next(isUuid, h, Advance(owner, probeOk));
      var id := a.keys[a.next];
      && owner in h'.attempts
      && (if IsDeviceId(isUuid, id) && LockName(id) !in h.locks then
            h'.locks == h.locks[LockName(id) := owner] && h'.attempts[owner] == Attempt(a.keys, a.next + 1, Acquiring)
          else
            h'.locks == h.locks && h'.attempts[owner] == Attempt(a.keys, a.next, Failed(IsDeviceId(isUuid, id))))
      && forall o :: o != owner ==> (o in h'.attempts <==> o in h.attempts) && (o in h.attempts ==> h'.attempts[o] == h.attempts[o])
  {
    ValidIff(isUuid, h.attempts[owner].keys[h.attempts[owner].next]);
  }
}
