/** Durable cleanup: which directories one attempt may remove, and when its task is finished.

    A path is the list of its names. The disk is the set of paths that exist; `blocked` holds those that are links
    or no directories. What the database knows is in `Store`. */
module Cleanup {
  import opened Wrappers

  type Path = seq<string>

  type RunId = string

  datatype Place = Absolute(path: Path) | Relative

  datatype Target =
    | Data(bucket: string, id: string)
    | Workspace(parent: Place, bucket: string, owner: string, checkout: Option<string>)
    | Shadow(root: Place, name: string, source: Option<Path>)

  datatype Manifest = Manifest(
    targets: set<Target>,
    sequence: Option<int>,
    protectedSources: set<Path>,
    unresolved: Option<Path>)

  /** The data directory, the private parent of new workspaces, the root of shadow repositories, and which names are
      UUIDs. */
  datatype Env = Env(data: Path, home: Path, shadowRoot: Path, isUuid: string -> bool)

  const WORKTREES := ".grapher-worktrees"
  const WORKSPACES := ".grapher-workspaces"
  const SHADOW_REPOS := "shadow_repos"

  predicate DataBucket(bucket: string) {
    || bucket == "sessions" || bucket == "planning" || bucket == "mergers" || bucket == "planner-sessions"
    || bucket == "partition-workers" || bucket == "environments" || bucket == "file-changes"
    || bucket == "attachment-inputs"
  }

  /** No directory name of the layout is a UUID. */
  ghost predicate Lawful(env: Env) {
    && !env.isUuid(WORKTREES) && !env.isUuid(WORKSPACES) && !env.isUuid(SHADOW_REPOS)
    && forall b :: DataBucket(b) ==> !env.isUuid(b)
  }

  predicate SafeId(id: string) {
    && 0 < |id| <= 128
    && forall c :: c in id ==> 'a' <= c <= 'z' || 'A' <= c <= 'Z' || '0' <= c <= '9' || c == '-' || c == '_'
  }

  predicate HexDigit(c: char) {
    '0' <= c <= '9' || 'a' <= c <= 'f' || 'A' <= c <= 'F'
  }

  /** A project, an underscore, sixteen hex digits, and `.git`. */
  predicate ShadowName(name: string) {
    && |name| > 21
    && name[|name| - 4..] == ".git"
    && name[|name| - 21] == '_'
    && (forall i :: |name| - 20 <= i < |name| - 4 ==> HexDigit(name[i]))
    && (forall i :: 0 <= i < |name| - 21 ==> name[i] != '/' && name[i] != '\\')
  }

  predicate ValidTarget(env: Env, run: RunId, t: Target) {
    match t
    case Data(bucket, id) => DataBucket(bucket) && SafeId(id)
    case Workspace(parent, bucket, owner, checkout) =>
      && parent.Absolute? && (bucket == WORKTREES || bucket == WORKSPACES) && env.isUuid(owner)
      && (checkout == None ==> owner == run)
      && (checkout.Some? ==> bucket == WORKSPACES && env.isUuid(checkout.value))
    case Shadow(root, name, _) => root.Absolute? && ShadowName(name)
  }

  function RootOf(env: Env, t: Target): Path {
    match t
    case Data(_, _) => env.data
    case Workspace(parent, _, _, _) => if parent.Absolute? then parent.path else []
    case Shadow(root, _, _) => if root.Absolute? then root.path else []
  }

  function PathOf(env: Env, t: Target): Path {
    match t
    case Data(bucket, id) => RootOf(env, t) + [bucket, id]
    case Workspace(_, bucket, owner, checkout) =>
      RootOf(env, t) + if checkout == None then [bucket, owner] else [bucket, owner, checkout.value]
    case Shadow(_, name, _) => RootOf(env, t) + [SHADOW_REPOS, name]
  }

  // ----- the disk

  datatype Disk = Disk(entries: set<Path>, blocked: set<Path>)

  /** Every entry below the root of the tree stands in a directory that exists. */
  ghost predicate TreeShaped(disk: Disk) {
    forall p, n :: p in disk.entries && 0 <= n <= |p| ==> p[..n] in disk.entries
  }

  /** Walking down a path from its prefix of length `n`: refused at a link, nothing there, or the path itself. */
  function Walk(disk: Disk, path: Path, n: nat): Result<Option<Path>, ()>
    requires n <= |path|
    decreases |path| - n
  {
    if path[..n] in disk.blocked then Err(())
    else if path[..n] !in disk.entries then Ok(None)
    else if n == |path| then Ok(Some(path))
    else Walk(disk, path, n + 1)
  }

  /** `Target::resolve`. */
  function Resolve(env: Env, disk: Disk, run: RunId, t: Target): Result<Option<Path>, ()> {
    if !ValidTarget(env, run, t) then Err(())
    else Walk(disk, PathOf(env, t), |RootOf(env, t)|)
  }

  lemma {:induction false} WalkIs(disk: Disk, path: Path, n: nat)
    requires n <= |path|
    ensures var r := Walk(disk, path, n);
            && (r.Ok? && r.value.Some? ==> r.value.value == path && path in disk.entries)
            && (r.Ok? && r.value == None ==> exists k :: n <= k <= |path| && path[..k] !in disk.entries)
    decreases |path| - n
  {
    assert path[..|path|] == path;
    if path[..n] !in disk.blocked && path[..n] in disk.entries && n < |path| {
      WalkIs(disk, path, n + 1);
    } else if path[..n] !in disk.entries {
      assert n <= n <= |path| && path[..n] !in disk.entries;
    }
  }

  /** A target resolves to its own path if that exists, and otherwise there is nothing at or below it. */
  lemma ResolveIs(env: Env, disk: Disk, run: RunId, t: Target, p: Path)
    requires TreeShaped(disk) && Resolve(env, disk, run, t).Ok?
    requires p in disk.entries && PathOf(env, t) <= p
    ensures Resolve(env, disk, run, t) == Ok(Some(PathOf(env, t)))
  {
    var path, n := PathOf(env, t), |RootOf(env, t)|;
    WalkIs(disk, path, n);
    forall k | n <= k <= |path|
      ensures path[..k] in disk.entries
    {
      assert p[..k] == path[..k];
    }
  }

  /** Distinct targets have distinct paths, but for shadow repositories recorded with different sources. */
  lemma PathsIdentifyTargets(env: Env, run: RunId, other: RunId, t: Target, u: Target)
    requires Lawful(env) && ValidTarget(env, run, t) && ValidTarget(env, other, u) && PathOf(env, t) == PathOf(env, u)
    ensures t == u || (t.Shadow? && u.Shadow? && t.root == u.root && t.name == u.name)
  {
    var p := PathOf(env, t);
    var n := |p|;
    assert p == PathOf(env, u);
    LastNames(env, t);
    LastNames(env, u);
    match t
    case Data(_, _) =>
    case Workspace(_, _, _, _) =>
    case Shadow(_, _, _) =>
  }

  function Bucket(t: Target): string {
    match t
    case Data(bucket, _) => bucket
    case Workspace(_, bucket, owner, checkout) => if checkout == None then bucket else owner
    case Shadow(_, _, _) => SHADOW_REPOS
  }

  function LastName(t: Target): string {
    match t
    case Data(_, id) => id
    case Workspace(_, _, owner, checkout) => checkout.GetOr(owner)
    case Shadow(_, name, _) => name
  }

  lemma LastNames(env: Env, t: Target)
    ensures var p := PathOf(env, t);
            && |p| >= |RootOf(env, t)| + 2
            && p[|p| - 1] == LastName(t) && p[|p| - 2] == Bucket(t)
            && p[..|RootOf(env, t)|] == RootOf(env, t)
            && (t.Workspace? && t.checkout.Some? ==> p[|p| - 3] == t.bucket && |p| == |RootOf(env, t)| + 3)
            && (!(t.Workspace? && t.checkout.Some?) ==> |p| == |RootOf(env, t)| + 2)
  {}

  // ----- removing

  /** What the file system refuses: trees of which only some entries go, and empty directories that stay. */
  datatype Faults = Faults(trees: map<Path, set<Path>>, stuck: set<Path>)

  ghost predicate Under(roots: set<Path>, p: Path) {
    exists r :: r in roots && r <= p
  }

  predicate CheckoutShaped(p: Path) {
    |p| >= 3 && p[|p| - 3] == WORKSPACES
  }

  function Parent(p: Path): Path
    requires p != []
  {
    p[..|p| - 1]
  }

  ghost predicate OwnerOf(roots: set<Path>, p: Path) {
    exists r :: r in roots && CheckoutShaped(r) && Parent(r) == p
  }

  /** The owner directory of a removed checkout that holds nothing but what is removed. */
  ghost predicate Emptied(disk: Disk, roots: set<Path>, p: Path) {
    OwnerOf(roots, p) && forall q :: q in disk.entries && p < q ==> Under(roots, q)
  }

  /** The same, counting owner directories inside it as removed: they are if they are emptied in time. */
  ghost predicate MayBeEmptied(disk: Disk, roots: set<Path>, p: Path) {
    OwnerOf(roots, p) && forall q :: q in disk.entries && p < q ==> Under(roots, q) || OwnerOf(roots, q)
  }

  /** What a removal may take. */
  ghost predicate Taken(disk: Disk, roots: set<Path>, faults: Faults, p: Path) {
    Under(roots, p) || (MayBeEmptied(disk, roots, p) && p !in faults.stuck)
  }

  /** A removal takes nothing but roots and directories they empty; one that succeeds takes all of them. */
  ghost predicate Removes(disk: Disk, roots: set<Path>, faults: Faults, disk': Disk, ok: bool) {
    && disk'.blocked == disk.blocked && disk'.entries <= disk.entries
    && (forall p :: p in disk.entries && p !in disk'.entries ==> Taken(disk, roots, faults, p))
    && (ok ==> forall p :: p in disk'.entries ==> !Under(roots, p) && (Emptied(disk, roots, p) ==> p in faults.stuck))
  }

  ghost predicate Maximal(roots: set<Path>, r: Path) {
    r in roots && forall a :: a in roots && a <= r ==> a == r
  }

  ghost predicate OwnerPending(roots: set<Path>, todo: set<Path>, p: Path) {
    exists r :: Maximal(roots, r) && r in todo && CheckoutShaped(r) && Parent(r) == p
  }

  ghost predicate TookOnly(disk: Disk, roots: set<Path>, faults: Faults, cur: set<Path>) {
    cur <= disk.entries && forall p :: p in disk.entries && p !in cur ==> Taken(disk, roots, faults, p)
  }

  ghost predicate RootsDue(roots: set<Path>, cur: set<Path>, todo: set<Path>) {
    forall p, r :: p in cur && Maximal(roots, r) && r <= p ==> r in todo
  }

  ghost predicate OwnersDue(disk: Disk, roots: set<Path>, faults: Faults, cur: set<Path>, todo: set<Path>) {
    forall p :: p in cur && Emptied(disk, roots, p) && !Under(roots, p) && p !in faults.stuck ==> OwnerPending(roots, todo, p)
  }

  /** Progress of the loop: what is left of the roots, and of the directories they empty, is due to roots still to come. */
  ghost predicate Removing(disk: Disk, roots: set<Path>, faults: Faults, cur: set<Path>, todo: set<Path>) {
    TookOnly(disk, roots, faults, cur) && RootsDue(roots, cur, todo) && OwnersDue(disk, roots, faults, cur, todo)
  }

  lemma {:induction false} MaximalAbove(roots: set<Path>, p: Path) returns (r: Path)
    requires Under(roots, p)
    ensures Maximal(roots, r) && r <= p
  {
    r :| r in roots && r <= p;
    while !Maximal(roots, r)
      invariant r in roots && r <= p
      decreases |r|
    {
      var a :| a in roots && a <= r && a != r;
      r := a;
    }
  }

  /** A root directly in a directory that no root covers is not inside another root. */
  lemma OwnerRootMaximal(roots: set<Path>, r: Path)
    requires r in roots && r != [] && !Under(roots, Parent(r))
    ensures Maximal(roots, r)
  {
    var owner := Parent(r);
    forall a | a in roots && a <= r
      ensures a == r
    {
      assert a == r || a <= owner;
    }
  }

  lemma StartRemoving(disk: Disk, roots: set<Path>, faults: Faults)
    ensures Removing(disk, roots, faults, disk.entries, roots)
  {
    forall p | Emptied(disk, roots, p) && !Under(roots, p)
      ensures OwnerPending(roots, roots, p)
    {
      var r :| r in roots && CheckoutShaped(r) && Parent(r) == p;
      OwnerRootMaximal(roots, r);
    }
  }

  lemma SkipNested(disk: Disk, roots: set<Path>, faults: Faults, cur: set<Path>, todo: set<Path>, r: Path)
    requires Removing(disk, roots, faults, cur, todo) && !Maximal(roots, r)
    ensures Removing(disk, roots, faults, cur, todo - {r})
  {
    forall p | p in cur && Emptied(disk, roots, p) && !Under(roots, p) && p !in faults.stuck
      ensures OwnerPending(roots, todo - {r}, p)
    {
      var s :| Maximal(roots, s) && s in todo && CheckoutShaped(s) && Parent(s) == p;
      assert s in todo - {r};
    }
  }

  /** A root's tree is gone. */
  lemma TookTree(disk: Disk, roots: set<Path>, faults: Faults, cur: set<Path>, todo: set<Path>, r: Path, cur': set<Path>)
    requires TookOnly(disk, roots, faults, cur) && RootsDue(roots, cur, todo) && r in roots
    requires cur' == set p | p in cur && !(r <= p)
    ensures TookOnly(disk, roots, faults, cur') && RootsDue(roots, cur', todo - {r})
  {}

  /** Nothing is left in a directory, so all it held was taken. */
  lemma TookOwner(disk: Disk, roots: set<Path>, faults: Faults, cur: set<Path>, r: Path)
    requires TookOnly(disk, roots, faults, cur) && r in roots && CheckoutShaped(r)
    requires Parent(r) !in faults.stuck && forall q :: q in cur ==> !(Parent(r) < q)
    ensures TookOnly(disk, roots, faults, cur - {Parent(r)})
  {
    var owner := Parent(r);
    forall q | q in disk.entries && owner < q
      ensures Under(roots, q) || OwnerOf(roots, q)
    {
      assert Taken(disk, roots, faults, q);
    }
    assert OwnerOf(roots, owner);
    assert MayBeEmptied(disk, roots, owner);
  }

  /** An emptied directory that still holds something waits for another root in it. */
  lemma HoldsAnotherRoot(disk: Disk, roots: set<Path>, cur: set<Path>, todo: set<Path>, p: Path, q: Path)
    requires TreeShaped(disk) && cur <= disk.entries && RootsDue(roots, cur, todo)
    requires Emptied(disk, roots, p) && !Under(roots, p) && q in cur && p < q
    ensures OwnerPending(roots, todo, p)
  {
    var c := q[..|p| + 1];
    assert p < c <= q;
    assert c in disk.entries;
    var r :| r in roots && r <= c;
    assert |r| <= |p| ==> r <= p;
    assert r == c && Parent(r) == p;
    OwnerRootMaximal(roots, r);
    var o :| o in roots && CheckoutShaped(o) && Parent(o) == p;
    assert |r| == |o| && r[|r| - 3] == p[|r| - 3] == o[|r| - 3];
  }

  lemma OwnersStillDue(disk: Disk, roots: set<Path>, faults: Faults, cur: set<Path>, todo: set<Path>, r: Path, cur': set<Path>)
    requires TreeShaped(disk) && cur' <= cur <= disk.entries && r in todo
    requires OwnersDue(disk, roots, faults, cur, todo) && RootsDue(roots, cur', todo - {r})
    requires CheckoutShaped(r) ==> Parent(r) !in cur' || Parent(r) in faults.stuck || exists q :: q in cur' && Parent(r) < q
    ensures OwnersDue(disk, roots, faults, cur', todo - {r})
  {
    forall p | p in cur' && Emptied(disk, roots, p) && !Under(roots, p) && p !in faults.stuck
      ensures OwnerPending(roots, todo - {r}, p)
    {
      var s :| Maximal(roots, s) && s in todo && CheckoutShaped(s) && Parent(s) == p;
      if s == r {
        var q :| q in cur' && p < q;
        HoldsAnotherRoot(disk, roots, cur', todo - {r}, p, q);
      } else {
        assert s in todo - {r};
      }
    }
  }

  lemma RemovedAll(disk: Disk, roots: set<Path>, faults: Faults, cur: set<Path>)
    requires Removing(disk, roots, faults, cur, {})
    ensures Removes(disk, roots, faults, disk.(entries := cur), true)
  {
    forall p | p in cur
      ensures !Under(roots, p)
    {
      if Under(roots, p) {
        var r := MaximalAbove(roots, p);
      }
    }
  }

  /** A root that is not inside another one cannot be removed whole. */
  ghost predicate MeetsFault(roots: set<Path>, faults: Faults) {
    exists r :: Maximal(roots, r) && r in faults.trees
  }

  /** `remove_paths`. The order of the roots is left open. */
  method RemovePaths(disk: Disk, roots: set<Path>, faults: Faults) returns (disk': Disk, ok: bool)
    requires TreeShaped(disk)
    ensures Removes(disk, roots, faults, disk', ok)
    ensures ok <==> !MeetsFault(roots, faults)
  {
    var cur, todo := disk.entries, roots;
    StartRemoving(disk, roots, faults);
    while todo != {}
      invariant todo <= roots && Removing(disk, roots, faults, cur, todo)
      invariant forall r :: Maximal(roots, r) && r !in todo ==> r !in faults.trees
      decreases |todo|
    {
      var r :| r in todo;
      if exists a :: a in roots && a != r && a <= r {
        SkipNested(disk, roots, faults, cur, todo, r);
      } else {
        if r in faults.trees {
          cur := set p | p in cur && !(r <= p && p in faults.trees[r]);
          return disk.(entries := cur), false;
        }
        cur := RemoveRoot(disk, roots, faults, cur, todo, r);
      }
      todo := todo - {r};
    }
    disk', ok := disk.(entries := cur), true;
    RemovedAll(disk, roots, faults, cur);
  }

  /** One root and its tree, and then its owner directory if it is empty. */
  method RemoveRoot(disk: Disk, roots: set<Path>, faults: Faults, cur: set<Path>, ghost todo: set<Path>, r: Path)
    returns (cur': set<Path>)
    requires TreeShaped(disk) && Removing(disk, roots, faults, cur, todo) && r in todo && todo <= roots
    ensures Removing(disk, roots, faults, cur', todo - {r})
  {
    cur' := set p | p in cur && !(r <= p);
    TookTree(disk, roots, faults, cur, todo, r, cur');
    if CheckoutShaped(r) {
      var owner := Parent(r);
      if owner !in faults.stuck && !exists q :: q in cur' && owner < q {
        TookOwner(disk, roots, faults, cur', r);
        cur' := cur' - {owner};
      }
    }
    OwnersStillDue(disk, roots, faults, cur, todo, r, cur');
  }

  // ----- exactly what a removal takes

  /** A directory that is not itself named like the workspace bucket holds no owner directory. */
  predicate PlainName(p: Path) {
    p == [] || p[|p| - 1] != WORKSPACES
  }

  lemma OwnerNames(roots: set<Path>, p: Path)
    requires OwnerOf(roots, p)
    ensures |p| >= 2 && p[|p| - 2] == WORKSPACES
  {
    var r :| r in roots && CheckoutShaped(r) && Parent(r) == p;
    assert r[|r| - 3] == p[|p| - 2];
  }

  lemma PlainNameEmpty(disk: Disk, roots: set<Path>, p: Path)
    requires TreeShaped(disk) && PlainName(p)
    ensures MayBeEmptied(disk, roots, p) <==> Emptied(disk, roots, p)
  {
    if MayBeEmptied(disk, roots, p) {
      forall q | q in disk.entries && p < q
        ensures Under(roots, q)
      {
        ChildCovered(disk, roots, p, q);
      }
    }
  }

  /** What stands in a directory that may be emptied stands under a root, if no owner directory stands directly in it. */
  lemma ChildCovered(disk: Disk, roots: set<Path>, p: Path, q: Path)
    requires TreeShaped(disk) && PlainName(p) && MayBeEmptied(disk, roots, p) && q in disk.entries && p < q
    ensures Under(roots, q)
  {
    var c := q[..|p| + 1];
    assert c in disk.entries && p < c <= q;
    OwnerNames(roots, p);
    assert c[|c| - 2] == p[|p| - 1];
    if OwnerOf(roots, c) {
      OwnerNames(roots, c);
    }
    var a :| a in roots && a <= c;
    assert a <= q;
  }

  /** A removal that succeeds takes exactly the roots, all they hold, and the owner directories it leaves empty, but for
      those the file system keeps. */
  lemma LostIff(disk: Disk, roots: set<Path>, faults: Faults, disk': Disk, p: Path)
    requires TreeShaped(disk) && PlainName(p)
    requires Removes(disk, roots, faults, disk', true) && p in disk.entries
    ensures p !in disk'.entries <==> Under(roots, p) || (Emptied(disk, roots, p) && p !in faults.stuck)
  {
    PlainNameEmpty(disk, roots, p);
  }

  /** Whatever the faults, a removal has an outcome: it stops at once, or takes what it should. */
  lemma RemovesExists(disk: Disk, roots: set<Path>, faults: Faults) returns (disk': Disk)
    ensures Removes(disk, roots, faults, disk', !MeetsFault(roots, faults))
  {
    if MeetsFault(roots, faults) {
      disk' := disk;
    } else {
      var left := set p | p in disk.entries && !Under(roots, p) && (Emptied(disk, roots, p) ==> p in faults.stuck);
      disk' := disk.(entries := left);
    }
  }

  // ----- the database

  /** The binding of a Run: its repository, and whether it uses an environment. */
  datatype Config = Config(repository: Place, environment: bool)

  /** A checkout path that is on record under an id: an execution's worktree, or a planning marker. */
  datatype Recorded = Recorded(id: string, place: Place)

  /** A Run with events: the last one's sequence, its phase, and what its history names. */
  datatype Run = Run(
    sequence: int,
    phase: string,
    nodeRunning: bool,
    config: Option<Config>,
    executions: set<Recorded>,
    planning: set<Recorded>,
    planningIds: set<string>,
    sessions: set<string>,
    mergers: set<string>,
    shadows: set<Path>,
    sources: set<Path>)

  datatype Row = Row(manifest: Manifest, attempts: nat, failed: bool)

  datatype Store = Store(
    runs: map<RunId, Run>,
    deleted: set<RunId>,
    tasks: map<RunId, Row>,
    owned: map<RunId, set<Target>>,
    sources: set<Path>,
    done: map<RunId, int>)

  datatype Task = Task(run: RunId, manifest: Manifest)

  function OwnedBy(s: Store, run: RunId): set<Target> {
    if run in s.owned then s.owned[run] else {}
  }

  /** `cleanup_target_is_shared`: another Run with events owns it, or its history needs it. */
  predicate Shared(env: Env, s: Store, excluded: RunId, t: Target) {
    exists run :: run in s.runs && run != excluded && NeededBy(env, s, run, t)
  }

  predicate NeededBy(env: Env, s: Store, run: RunId, t: Target)
    requires run in s.runs
  {
    if t.Shadow? then run !in s.deleted && PathOf(env, t) in s.runs[run].shadows
    else t in OwnedBy(s, run) || Names(s.runs[run], t)
  }

  /** The Run's events name the id of the target. */
  predicate Names(r: Run, t: Target) {
    match t
    case Data(bucket, id) =>
      if bucket == "planning" then id in r.planningIds
      else if bucket == "sessions" then id in r.sessions
      else bucket == "mergers" && id in r.mergers
    case Workspace(_, _, _, checkout) => checkout.Some? && checkout.value in r.planningIds
    case Shadow(_, _, _) => false
  }

  function Enqueued(s: Store, run: RunId, m: Manifest): Store {
    s.(tasks := s.tasks[run := if run in s.tasks then s.tasks[run].(manifest := m) else Row(m, 0, false)])
  }

  function FailedTask(s: Store, run: RunId): Store {
    if run in s.tasks then s.(tasks := s.tasks[run := Row(s.tasks[run].manifest, s.tasks[run].attempts + 1, true)]) else s
  }

  /** `finish_cleanup`. */
  function Finished(s: Store, run: RunId): Store {
    var done :=
      if run in s.tasks && s.tasks[run].manifest.sequence.Some? then s.done[run := s.tasks[run].manifest.sequence.value] else s.done;
    if run in s.deleted then s.(tasks := s.tasks - {run}, done := done - {run}, owned := s.owned - {run})
    else s.(tasks := s.tasks - {run}, done := done)
  }

  function OnlyWorkspaces(targets: set<Target>): set<Target> {
    set t | t in targets && t.Workspace?
  }

  lemma OnlyWorkspacesIs(targets: set<Target>)
    ensures OnlyWorkspaces(targets) != {} <==> exists t :: t in targets && t.Workspace?
  {
    if t :| t in targets && t.Workspace? {
      assert t in OnlyWorkspaces(targets);
    }
    if OnlyWorkspaces(targets) != {} {
      var t :| t in OnlyWorkspaces(targets);
    }
  }

  // ----- collecting what a Run owns

  predicate IsDir(disk: Disk, p: Path) {
    p in disk.entries && p !in disk.blocked
  }

  /** The Run's own workspace roots in one parent. */
  function Standard(parent: Place, run: RunId): set<Target> {
    {Workspace(parent, WORKTREES, run, None), Workspace(parent, WORKSPACES, run, None)}
  }

  /** `configuration_targets`: what a Run owns by its binding. */
  function Configured(env: Env, disk: Disk, run: RunId, config: Config, luck: Luck): Result<set<Target>, ()> {
    var environment := if config.environment && env.isUuid(run) then {Data("environments", run)} else {};
    if config.repository.Relative? then Ok(environment)
    else if !luck.configures then Err(())
    else if !IsDir(disk, config.repository.path) then Ok(environment)
    else
      var source := config.repository.path;
      var home := {Workspace(Absolute(env.home), WORKTREES, run, None)};
      var beside := if source == [] then {} else Standard(Absolute(Parent(source)), run);
      var shadow := if luck.shadow.Some? then {Shadow(Absolute(env.shadowRoot), luck.shadow.value, Some(source))} else {};
      Ok(environment + (if env.isUuid(run) then home + beside else {}) + shadow)
  }

  /** `legacy_workspace`: the target a recorded checkout path proves, if it has the standard layout. */
  function LegacyWorkspace(env: Env, disk: Disk, place: Place, run: RunId): Option<Target> {
    if place.Relative? || |place.path| < 3 then None
    else
      var p := place.path;
      var n := |p|;
      var parent, bucket, owner, checkout := p[..n - 3], p[n - 3], p[n - 2], p[n - 1];
      if !env.isUuid(owner) || !env.isUuid(run) || parent !in disk.entries then None
      else if bucket == WORKTREES && owner == run then Some(Workspace(Absolute(parent), bucket, run, None))
      else if bucket == WORKSPACES && env.isUuid(checkout) then
        Some(Workspace(Absolute(parent), bucket, owner, Some(checkout)))
      else None
  }

  /** An execution authorizes its worktree unless that is a checkout of another owner under another id. */
  predicate ByExecution(env: Env, disk: Disk, run: RunId, e: Recorded) {
    var t := LegacyWorkspace(env, disk, e.place, run);
    t.Some? && (t.value.checkout.Some? && t.value.owner != run ==> t.value.checkout.value == e.id)
  }

  /** A planning marker authorizes only the checkout of its own id. */
  predicate ByMarker(env: Env, disk: Disk, run: RunId, e: Recorded) {
    var t := LegacyWorkspace(env, disk, e.place, run);
    t.Some? && t.value.checkout == Some(e.id)
  }

  function Legacy(env: Env, disk: Disk, run: RunId, state: Run): set<Target> {
    (set e | e in state.executions && ByExecution(env, disk, run, e) :: LegacyWorkspace(env, disk, e.place, run).value)
    + (set e | e in state.planning && ByMarker(env, disk, run, e) :: LegacyWorkspace(env, disk, e.place, run).value)
  }

  function Parents(targets: set<Target>): set<Place> {
    set t | t in targets && t.Workspace? :: t.parent
  }

  /** `missing_source_workspaces`: the standard roots beside known ones, else beside where the source was. */
  function MissingSource(env: Env, run: RunId, repository: Path, targets: set<Target>): set<Target> {
    if !env.isUuid(run) then {}
    else if Parents(targets) != {} then
      set t, bucket | t in targets && t.Workspace? && bucket in {WORKTREES, WORKSPACES} ::
        Workspace(t.parent, bucket, run, None)
    else if repository == [] || ".." in repository then {}
    else Standard(Absolute(Parent(repository)), run)
  }

  /** Targets by record and by binding. The binding may fail to read only if some workspace is on record. */
  function Bound(env: Env, s: Store, disk: Disk, run: RunId, luck: Luck): Result<set<Target>, ()>
    requires run in s.runs
  {
    var config := s.runs[run].config;
    if config == None then Ok(OwnedBy(s, run))
    else
      match Configured(env, disk, run, config.value, luck)
      case Ok(targets) => Ok(OwnedBy(s, run) + targets)
      case Err(_) => if OnlyWorkspaces(OwnedBy(s, run)) != {} then Ok(OwnedBy(s, run)) else Err(())
  }

  /** The repository a Run is bound to, if it is not there any more. */
  function MissingBinding(disk: Disk, r: Run, luck: Luck): Option<Place> {
    match r.config
    case None => None
    case Some(Config(Relative, _)) => if luck.relativeIsDir then None else Some(Relative)
    case Some(Config(Absolute(path), _)) => if IsDir(disk, path) then None else Some(Absolute(path))
  }

  function WithMissing(env: Env, run: RunId, missing: Option<Place>, targets: set<Target>): set<Target> {
    match missing
    case None => targets
    case Some(Relative) => targets + MissingSource(env, run, [], targets)
    case Some(Absolute(path)) => targets + MissingSource(env, run, path, targets)
  }

  /** `manifest` for a live Run whose workspaces are cleaned. */
  function Collected(env: Env, s: Store, disk: Disk, run: RunId, luck: Luck): Result<Manifest, ()>
    requires run in s.runs
  {
    var state := s.runs[run];
    match Bound(env, s, disk, run, luck)
    case Err(_) => Err(())
    case Ok(bound) =>
      if !luck.collects then Err(())
      else
        var missing := MissingBinding(disk, state, luck);
        var targets := OnlyWorkspaces(WithMissing(env, run, missing, bound + Legacy(env, disk, run, state)));
        var unresolved :=
          if missing.Some? && missing.value.Absolute? && env.isUuid(run) && targets == {} then Some(missing.value.path) else None;
        Ok(Manifest(targets, Some(state.sequence), s.sources + state.sources, unresolved))
  }

  predicate Active(r: Run) {
    r.phase == "planning" || r.phase == "publishing" || r.phase == "merging" || r.nodeRunning
  }

  // ----- one attempt

  /** What an attempt meets outside: whether markers, the binding and a missing source can be read, whether a relative
      binding leads to a directory, the shadow repository of the source, whether pruning works, and file faults. */
  datatype Luck = Luck(
    collects: bool,
    configures: bool,
    relativeIsDir: bool,
    shadow: Option<string>,
    recovers: bool,
    prunes: bool,
    faults: Faults)

  datatype Decision = Stale | Refused | Go(manifest: Manifest)

  datatype Prepared = Prepared(store: Store, decision: Decision)

  /** The Run must still be at the recorded event, or be provably deleted. */
  function Admit(env: Env, s: Store, disk: Disk, task: Task, luck: Luck): Prepared {
    var run := task.run;
    if task.manifest.sequence.Some? && run in s.runs then
      var state := s.runs[run];
      if state.sequence != task.manifest.sequence.value then Prepared(s, Stale)
      else if Active(state) then Prepared(s, Refused)
      else
        match Collected(env, s, disk, run, luck)
        case Err(_) => Prepared(s, Refused)
        case Ok(m) => Prepared(Enqueued(s, run, m), Go(m))
    else if run in s.deleted then Prepared(s, Go(task.manifest))
    else Prepared(s, Refused)
  }

  /** The workspaces of an unresolved repository: by its binding if it is back, else without it. */
  function Found(env: Env, disk: Disk, run: RunId, repository: Path, targets: set<Target>, luck: Luck)
    : Result<set<Target>, ()>
  {
    if IsDir(disk, repository) then Configured(env, disk, run, Config(Absolute(repository), false), luck)
    else if luck.recovers then Ok(MissingSource(env, run, repository, targets))
    else Err(())
  }

  function Recover(env: Env, disk: Disk, p: Prepared, run: RunId, luck: Luck): Prepared {
    if !p.decision.Go? || p.decision.manifest.unresolved == None then p
    else
      var m := p.decision.manifest;
      match Found(env, disk, run, m.unresolved.value, m.targets, luck)
      case Err(_) => Prepared(p.store, Refused)
      case Ok(found) =>
        if OnlyWorkspaces(found) == {} then p
        else
          var m' := m.(targets := m.targets + found, unresolved := None);
          Prepared(Enqueued(p.store, run, m'), Go(m'))
  }

  predicate AllResolve(env: Env, disk: Disk, run: RunId, targets: set<Target>) {
    forall t :: t in targets ==> Resolve(env, disk, run, t).Ok?
  }

  /** The whole plan is checked before the first removal. */
  function Checked(env: Env, disk: Disk, p: Prepared, run: RunId, luck: Luck): Prepared {
    if !p.decision.Go? then p
    else if !AllResolve(env, disk, run, p.decision.manifest.targets) || !luck.prunes then Prepared(p.store, Refused)
    else
      var m := p.decision.manifest;
      Prepared(p.store, Go(m.(protectedSources := m.protectedSources + p.store.sources)))
  }

  function Plan(env: Env, s: Store, disk: Disk, task: Task, luck: Luck): Prepared {
    Checked(env, disk, Recover(env, disk, Admit(env, s, disk, task, luck), task.run, luck), task.run, luck)
  }

  predicate Protected(m: Manifest, p: Path) {
    exists source :: source in m.protectedSources && p <= source
  }

  /** The paths handed to removal: unshared targets that exist and hold no protected source. */
  function Roots(env: Env, s: Store, disk: Disk, run: RunId, m: Manifest): set<Path> {
    set t | t in m.targets && IsRoot(env, s, disk, run, m, t) :: PathOf(env, t)
  }

  predicate IsRoot(env: Env, s: Store, disk: Disk, run: RunId, m: Manifest, t: Target) {
    && !Shared(env, s, run, t) && Resolve(env, disk, run, t) == Ok(Some(PathOf(env, t)))
    && !Protected(m, PathOf(env, t))
  }

  /** An attempt ends: stale, refused with nothing touched, or after a removal. */
  ghost predicate Executed(env: Env, s: Store, disk: Disk, task: Task, luck: Luck, s': Store, disk': Disk, removed: bool, ok: bool) {
    var plan := Plan(env, s, disk, task, luck);
    match plan.decision
    case Stale => ok && !removed && disk' == disk && s' == Finished(plan.store, task.run)
    case Refused => !ok && !removed && disk' == disk && s' == plan.store
    case Go(m) =>
      var roots := Roots(env, plan.store, disk, task.run, m);
      && Removes(disk, roots, luck.faults, disk', removed)
      && (removed <==> !MeetsFault(roots, luck.faults))
      && ok == (removed && m.unresolved == None)
      && s' == if ok then Finished(plan.store, task.run) else plan.store
  }

  /** `attempt`: a failure is recorded on the task. */
  ghost predicate Attempted(env: Env, s: Store, disk: Disk, task: Task, luck: Luck, s': Store, disk': Disk, removed: bool, ok: bool) {
    exists s1 ::
      && Executed(env, s, disk, task, luck, s1, disk', removed, ok)
      && s' == if ok then s1 else FailedTask(s1, task.run)
  }

  // ----- what one attempt keeps

  /** A plan that fails its check removes nothing and does not finish. */
  lemma InvalidPlanRemovesNothing(env: Env, s: Store, disk: Disk, task: Task, luck: Luck, s': Store, disk': Disk,
        removed: bool, ok: bool)
    requires Attempted(env, s, disk, task, luck, s', disk', removed, ok)
    requires Admit(env, s, disk, task, luck).decision.Go?
    requires !AllResolve(env, disk, task.run, Admit(env, s, disk, task, luck).decision.manifest.targets)
    ensures !ok && disk' == disk
  {
    var admitted := Admit(env, s, disk, task, luck);
    var recovered := Recover(env, disk, admitted, task.run, luck);
    if recovered.decision.Go? {
      assert admitted.decision.manifest.targets <= recovered.decision.manifest.targets;
    }
  }

  /** A live Run that has had a later event: the cleanup is over, with nothing removed and nothing disowned. */
  lemma LaterEventCancels(env: Env, s: Store, disk: Disk, task: Task, luck: Luck, s': Store, disk': Disk,
        removed: bool, ok: bool)
    requires Attempted(env, s, disk, task, luck, s', disk', removed, ok)
    requires task.manifest.sequence.Some? && task.run in s.runs && task.run !in s.deleted
    requires s.runs[task.run].sequence != task.manifest.sequence.value
    ensures ok && disk' == disk && task.run !in s'.tasks && s'.owned == s.owned && s'.runs == s.runs
  {}

  /** A Run at work, or one neither live nor provably deleted, is left alone, and its task is kept. */
  lemma ActiveOrUnprovenRefused(env: Env, s: Store, disk: Disk, task: Task, luck: Luck, s': Store, disk': Disk,
        removed: bool, ok: bool)
    requires Attempted(env, s, disk, task, luck, s', disk', removed, ok)
    requires
      || (task.manifest.sequence.Some? && task.run in s.runs && task.manifest.sequence.value == s.runs[task.run].sequence
          && Active(s.runs[task.run]))
      || ((task.manifest.sequence == None || task.run !in s.runs) && task.run !in s.deleted)
    ensures !ok && disk' == disk && s' == FailedTask(s, task.run)
  {}

  /** Only the manifest of the Run's task may differ. */
  ghost predicate OnlyPlanned(s: Store, s': Store, run: RunId) {
    && s' == s.(tasks := s'.tasks) && s'.tasks.Keys == s.tasks.Keys
    && (run in s.tasks ==> s'.tasks[run].attempts == s.tasks[run].attempts)
    && forall r :: r in s.tasks && r != run ==> s'.tasks[r] == s.tasks[r]
  }

  lemma EnqueuedOnlyPlans(s: Store, run: RunId, m: Manifest)
    requires run in s.tasks
    ensures OnlyPlanned(s, Enqueued(s, run, m), run)
  {}

  lemma AdmitOnlyPlans(env: Env, s: Store, disk: Disk, task: Task, luck: Luck)
    requires task.run in s.tasks
    ensures OnlyPlanned(s, Admit(env, s, disk, task, luck).store, task.run)
  {
    if task.run in s.runs && Collected(env, s, disk, task.run, luck).Ok? {
      EnqueuedOnlyPlans(s, task.run, Collected(env, s, disk, task.run, luck).value);
    }
  }

  lemma RecoverOnlyPlans(env: Env, disk: Disk, p: Prepared, run: RunId, luck: Luck)
    requires run in p.store.tasks
    ensures OnlyPlanned(p.store, Recover(env, disk, p, run, luck).store, run)
  {}

  lemma PlanKeepsOwnership(env: Env, s: Store, disk: Disk, task: Task, luck: Luck)
    requires task.run in s.tasks
    ensures OnlyPlanned(s, Plan(env, s, disk, task, luck).store, task.run)
  {
    AdmitOnlyPlans(env, s, disk, task, luck);
    RecoverOnlyPlans(env, disk, Admit(env, s, disk, task, luck), task.run, luck);
  }

  /** A failed attempt keeps the task, counts the failure, and loses no ownership of anyone. */
  lemma FailureKeepsOwnership(env: Env, s: Store, disk: Disk, task: Task, luck: Luck, s': Store, disk': Disk,
        removed: bool, ok: bool)
    requires Attempted(env, s, disk, task, luck, s', disk', removed, ok) && task.run in s.tasks && !ok
    ensures s' == s.(tasks := s'.tasks) && s'.tasks.Keys == s.tasks.Keys
    ensures s'.tasks[task.run].attempts == s.tasks[task.run].attempts + 1 && s'.tasks[task.run].failed
    ensures forall r :: r in s.tasks && r != task.run ==> s'.tasks[r] == s.tasks[r]
  {
    PlanKeepsOwnership(env, s, disk, task, luck);
  }

  /** Success ends this task only, and gives up what the Run owns only once the Run is deleted. */
  lemma SuccessEndsOneTask(env: Env, s: Store, disk: Disk, task: Task, luck: Luck, s': Store, disk': Disk,
        removed: bool, ok: bool)
    requires Attempted(env, s, disk, task, luck, s', disk', removed, ok) && task.run in s.tasks && ok
    ensures s'.tasks.Keys == s.tasks.Keys - {task.run}
    ensures forall r :: r in s.tasks && r != task.run ==> s'.tasks[r] == s.tasks[r]
    ensures s'.runs == s.runs && s'.deleted == s.deleted && s'.sources == s.sources
    ensures forall r :: OwnedBy(s', r) == OwnedBy(s, r) || (r == task.run && r in s.deleted)
  {
    PlanKeepsOwnership(env, s, disk, task, luck);
  }

  lemma RootIs(env: Env, s: Store, disk: Disk, run: RunId, m: Manifest, p: Path) returns (t: Target)
    requires p in Roots(env, s, disk, run, m)
    ensures t in m.targets && p == PathOf(env, t) && !Shared(env, s, run, t) && ValidTarget(env, run, t) && !Protected(m, p)
  {
    t :| t in m.targets && IsRoot(env, s, disk, run, m, t) && PathOf(env, t) == p;
  }

  /** Nothing is left at or below a target that is neither shared nor above a protected source. */
  ghost predicate Gone(env: Env, disk: Disk, t: Target) {
    forall p :: p in disk.entries ==> !(PathOf(env, t) <= p)
  }

  ghost predicate AllGone(env: Env, s: Store, run: RunId, m: Manifest, disk: Disk) {
    forall t :: t in m.targets && !Shared(env, s, run, t) && !Protected(m, PathOf(env, t)) ==> Gone(env, disk, t)
  }

  /** A task finishes only when stale, or when every unshared, unprotected target of the whole plan is gone. */
  lemma FinishedOnlyWhenGone(env: Env, s: Store, disk: Disk, task: Task, luck: Luck, s': Store, disk': Disk,
        removed: bool, ok: bool)
    requires TreeShaped(disk) && Attempted(env, s, disk, task, luck, s', disk', removed, ok) && ok
    ensures var plan := Plan(env, s, disk, task, luck);
            || (plan.decision == Stale && disk' == disk)
            || (plan.decision.Go? && plan.decision.manifest.unresolved == None
                && AllGone(env, plan.store, task.run, plan.decision.manifest, disk'))
  {
    var plan := Plan(env, s, disk, task, luck);
    if plan.decision.Go? {
      var m := plan.decision.manifest;
      var roots := Roots(env, plan.store, disk, task.run, m);
      assert AllResolve(env, disk, task.run, m.targets);
      forall t | t in m.targets && !Shared(env, plan.store, task.run, t) && !Protected(m, PathOf(env, t))
        ensures Gone(env, disk', t)
      {
        forall p | p in disk.entries && PathOf(env, t) <= p
          ensures p !in disk'.entries
        {
          ResolveIs(env, disk, task.run, t, p);
          assert PathOf(env, t) in roots;
          assert Under(roots, p);
        }
      }
    }
  }

  /** An attempt ends its task exactly when the task is stale, or its plan is carried out with no repository left
      unresolved and every root not inside another one can be removed. */
  lemma FinishesIff(env: Env, s: Store, disk: Disk, task: Task, luck: Luck, s': Store, disk': Disk,
        removed: bool, ok: bool)
    requires Attempted(env, s, disk, task, luck, s', disk', removed, ok) && task.run in s.tasks
    ensures var plan := Plan(env, s, disk, task, luck);
            task.run !in s'.tasks <==>
              || plan.decision == Stale
              || (plan.decision.Go? && plan.decision.manifest.unresolved == None
                  && !MeetsFault(Roots(env, plan.store, disk, task.run, plan.decision.manifest), luck.faults))
  {
    if ok {
      SuccessEndsOneTask(env, s, disk, task, luck, s', disk', removed, ok);
    } else {
      FailureKeepsOwnership(env, s, disk, task, luck, s', disk', removed, ok);
    }
  }

  /** No path handed to removal is at or above a protected source, nor the path of a target another Run needs. */
  lemma RootsAreSafe(env: Env, s: Store, disk: Disk, run: RunId, m: Manifest, other: RunId, t: Target)
    requires Lawful(env)
    ensures forall source :: source in m.protectedSources ==> !Under(Roots(env, s, disk, run, m), source)
    ensures ValidTarget(env, other, t) && Shared(env, s, run, t) ==> PathOf(env, t) !in Roots(env, s, disk, run, m)
  {
    var roots := Roots(env, s, disk, run, m);
    forall source | source in m.protectedSources
      ensures !Under(roots, source)
    {
      forall r | r in roots
        ensures !(r <= source)
      {
        var u := RootIs(env, s, disk, run, m, r);
      }
    }
    if ValidTarget(env, other, t) && PathOf(env, t) in roots {
      var u := RootIs(env, s, disk, run, m, PathOf(env, t));
      PathsIdentifyTargets(env, run, other, u, t);
      SameSharing(env, s, run, u, t);
    }
  }

  lemma SameSharing(env: Env, s: Store, run: RunId, t: Target, u: Target)
    requires PathOf(env, t) == PathOf(env, u)
    requires t == u || (t.Shadow? && u.Shadow?)
    ensures Shared(env, s, run, t) <==> Shared(env, s, run, u)
  {
    if Shared(env, s, run, t) {
      var r :| r in s.runs && r != run && NeededBy(env, s, r, t);
      assert NeededBy(env, s, r, u);
    }
    if Shared(env, s, run, u) {
      var r :| r in s.runs && r != run && NeededBy(env, s, r, u);
      assert NeededBy(env, s, r, t);
    }
  }

  lemma NotDotted(id: string)
    requires SafeId(id)
    ensures id != WORKTREES && id != WORKSPACES
  {
    assert WORKTREES[0] == '.' && WORKTREES[0] in WORKTREES;
    assert WORKSPACES[0] == '.' && WORKSPACES[0] in WORKSPACES;
  }

  lemma TargetIsPlain(env: Env, run: RunId, t: Target)
    requires Lawful(env) && ValidTarget(env, run, t)
    ensures PlainName(PathOf(env, t))
  {
    LastNames(env, t);
    if t.Data? {
      NotDotted(t.id);
    }
  }

  /** What another Run needs is lost in an attempt that removes all it had to exactly when a removed root lies strictly
      above it, or it is an owner directory left empty. */
  lemma SharedLostIff(env: Env, s: Store, disk: Disk, run: RunId, m: Manifest, faults: Faults, disk': Disk,
        other: RunId, t: Target)
    requires Lawful(env) && TreeShaped(disk)
    requires ValidTarget(env, other, t) && Shared(env, s, run, t) && PathOf(env, t) in disk.entries
    requires Removes(disk, Roots(env, s, disk, run, m), faults, disk', true)
    ensures var roots, p := Roots(env, s, disk, run, m), PathOf(env, t);
            p !in disk'.entries <==> (exists r :: r in roots && r < p) || (Emptied(disk, roots, p) && p !in faults.stuck)
  {
    var roots, p := Roots(env, s, disk, run, m), PathOf(env, t);
    TargetIsPlain(env, other, t);
    RootsAreSafe(env, s, disk, run, m, other, t);
    LostIff(disk, roots, faults, disk', p);
    StrictlyUnder(roots, p);
  }

  lemma StrictlyUnder(roots: set<Path>, p: Path)
    requires p !in roots
    ensures Under(roots, p) <==> exists r :: r in roots && r < p
  {
    if Under(roots, p) {
      var r :| r in roots && r <= p;
      assert |r| == |p| ==> r == p;
      assert r < p;
    }
    if r :| r in roots && r < p {
      assert r <= p;
    }
  }

  /** A protected source is lost exactly when it is itself an owner directory that removal leaves empty. */
  lemma ProtectedLostIff(env: Env, s: Store, disk: Disk, run: RunId, m: Manifest, faults: Faults, disk': Disk, source: Path)
    requires Lawful(env) && TreeShaped(disk) && PlainName(source)
    requires source in m.protectedSources && source in disk.entries
    requires Removes(disk, Roots(env, s, disk, run, m), faults, disk', true)
    ensures var roots := Roots(env, s, disk, run, m);
            source !in disk'.entries <==> Emptied(disk, roots, source) && source !in faults.stuck
  {
    var roots := Roots(env, s, disk, run, m);
    RootsAreSafe(env, s, disk, run, m, run, Data("", ""));
    LostIff(disk, roots, faults, disk', source);
  }

  /** The directory of a target's layout directly in its trusted root. */
  function Top(t: Target): string {
    match t
    case Data(bucket, _) => bucket
    case Workspace(_, bucket, _, _) => bucket
    case Shadow(_, _, _) => SHADOW_REPOS
  }

  lemma TopIsNoId(env: Env, other: RunId, t: Target)
    requires Lawful(env) && ValidTarget(env, other, t)
    ensures !env.isUuid(Top(t)) && |Top(t)| <= 20 && (t.Workspace? ==> Top(t) == WORKTREES || Top(t) == WORKSPACES)
  {}

  /** Only a data directory can have the name of a layout directory. */
  lemma NamedLikeTop(env: Env, run: RunId, other: RunId, u: Target, t: Target)
    requires Lawful(env) && ValidTarget(env, run, u) && ValidTarget(env, other, t) && LastName(u) == Top(t)
    ensures u.Data? && !t.Workspace?
  {
    TopIsNoId(env, other, t);
    if u.Data? {
      NotDotted(u.id);
    }
  }

  lemma TopIs(env: Env, t: Target)
    ensures var p, n := PathOf(env, t), |RootOf(env, t)|; p[n] == Top(t)
  {}

  /** How a removed target can lie above another one: it holds that one's trusted root, or it is a Run's workspace root
      above a checkout inside it. The remaining case is a data directory named like the shadow bucket. */
  lemma NestedIs(env: Env, run: RunId, other: RunId, u: Target, t: Target)
    requires Lawful(env) && ValidTarget(env, run, u) && ValidTarget(env, other, t) && PathOf(env, u) < PathOf(env, t)
    ensures
      || PathOf(env, u) <= RootOf(env, t)
      || (t.Workspace? && t.checkout.Some? && t.owner == run && PathOf(env, u) == Parent(PathOf(env, t)))
      || (t.Shadow? && u.Data? && u.id == SHADOW_REPOS)
  {
    var r, p, n := PathOf(env, u), PathOf(env, t), |RootOf(env, t)|;
    LastNames(env, u);
    LastNames(env, t);
    TopIs(env, t);
    if |r| <= n {
      assert r == p[..|r|] == RootOf(env, t)[..|r|];
    } else if |r| == n + 1 {
      NamedLikeTop(env, run, other, u, t);
    } else {
      InsideOwner(env, run, u, t.owner);
    }
  }

  lemma InsideOwner(env: Env, run: RunId, u: Target, owner: string)
    requires Lawful(env) && ValidTarget(env, run, u) && Bucket(u) == WORKSPACES && LastName(u) == owner
    ensures u.Workspace? && u.checkout == None && owner == run
  {}

  // ----- where the protection ends

  /** Every outcome of the attempt loses the path, and there is one. */
  ghost predicate SurelyLost(env: Env, s: Store, disk: Disk, task: Task, luck: Luck, p: Path) {
    && (exists s', disk', removed, ok :: Attempted(env, s, disk, task, luck, s', disk', removed, ok))
    && forall s', disk', removed, ok :: Attempted(env, s, disk, task, luck, s', disk', removed, ok) ==> p !in disk'.entries
  }

  /** An attempt always has an outcome. */
  lemma AttemptExists(env: Env, s: Store, disk: Disk, task: Task, luck: Luck)
    ensures exists s', disk', removed, ok :: Attempted(env, s, disk, task, luck, s', disk', removed, ok)
  {
    var plan := Plan(env, s, disk, task, luck);
    var s1, disk', removed, ok := plan.store, disk, false, plan.decision.Stale?;
    match plan.decision {
      case Stale => s1 := Finished(plan.store, task.run);
      case Refused =>
      case Go(m) =>
        var roots := Roots(env, plan.store, disk, task.run, m);
        disk' := RemovesExists(disk, roots, luck.faults);
        removed := !MeetsFault(roots, luck.faults);
        ok := removed && m.unresolved == None;
        s1 := if ok then Finished(plan.store, task.run) else plan.store;
    }
    assert Executed(env, s, disk, task, luck, s1, disk', removed, ok);
    assert Attempted(env, s, disk, task, luck, if ok then s1 else FailedTask(s1, task.run), disk', removed, ok);
  }

  const CALM := Luck(true, true, false, None, true, true, Faults(map[], {}))

  /** Without faults, an attempt at a deleted Run's single target removes it. */
  lemma CalmAttemptRemoves(env: Env, s: Store, disk: Disk, run: RunId, t: Target, sources: set<Path>, p: Path)
    requires run in s.deleted && !Shared(env, s, run, t) && s.sources == {}
    requires Resolve(env, disk, run, t) == Ok(Some(PathOf(env, t)))
    requires !Protected(Manifest({t}, None, sources, None), PathOf(env, t))
    requires PathOf(env, t) <= p || (Emptied(disk, {PathOf(env, t)}, p))
    ensures SurelyLost(env, s, disk, Task(run, Manifest({t}, None, sources, None)), CALM, p)
  {
    var task := Task(run, Manifest({t}, None, sources, None));
    AttemptExists(env, s, disk, task, CALM);
    var plan := Plan(env, s, disk, task, CALM);
    assert sources + {} == sources;
    assert plan == Prepared(s, Go(task.manifest));
    assert IsRoot(env, s, disk, run, task.manifest, t);
    assert Roots(env, s, disk, run, task.manifest) == {PathOf(env, t)};
    assert PathOf(env, t) <= p ==> Under({PathOf(env, t)}, p);
  }

  /** An adopted project at an owner directory that becomes empty goes with its last checkout, protected or not. */
  lemma ProtectedOwnerLost(env: Env, owner: string, checkout: string)
    requires env.isUuid(owner) && env.isUuid(checkout)
    ensures var source := ["project", WORKSPACES, owner];
            var t := Workspace(Absolute(["project"]), WORKSPACES, owner, Some(checkout));
            var s := Store(map[], {owner}, map[], map[], {}, map[]);
            var disk := Disk({[], ["project"], ["project", WORKSPACES], source, source + [checkout]}, {});
            SurelyLost(env, s, disk, Task(owner, Manifest({t}, None, {source}, None)), CALM, source)
  {
    var source := ["project", WORKSPACES, owner];
    var t := Workspace(Absolute(["project"]), WORKSPACES, owner, Some(checkout));
    var s := Store(map[], {owner}, map[], map[], {}, map[]);
    var disk := Disk({[], ["project"], ["project", WORKSPACES], source, source + [checkout]}, {});
    var path := source + [checkout];
    assert PathOf(env, t) == path;
    forall k | 1 <= k <= 4
      ensures path[..k] in disk.entries
    {
      assert path[..1] == ["project"] && path[..2] == ["project", WORKSPACES] && path[..3] == source && path[..4] == path;
    }
    ThreeLevels(env, disk, owner, t);
    assert Emptied(disk, {path}, source) by {
      assert CheckoutShaped(path) && Parent(path) == source;
      assert forall q :: q in disk.entries && source < q ==> q == path;
    }
    CalmAttemptRemoves(env, s, disk, owner, t, {source}, source);
  }

  lemma ThreeLevels(env: Env, disk: Disk, run: RunId, t: Target)
    requires ValidTarget(env, run, t) && disk.blocked == {}
    requires forall k :: |RootOf(env, t)| <= k <= |PathOf(env, t)| ==> PathOf(env, t)[..k] in disk.entries
    ensures Resolve(env, disk, run, t) == Ok(Some(PathOf(env, t)))
  {
    WalkIs(disk, PathOf(env, t), |RootOf(env, t)|);
    WalkSucceeds(disk, PathOf(env, t), |RootOf(env, t)|);
  }

  lemma {:induction false} WalkSucceeds(disk: Disk, path: Path, n: nat)
    requires n <= |path| && disk.blocked == {}
    requires forall k :: n <= k <= |path| ==> path[..k] in disk.entries
    ensures Walk(disk, path, n) == Ok(Some(path))
    decreases |path| - n
  {
    if n < |path| {
      WalkSucceeds(disk, path, n + 1);
    }
  }

  /** A deleted Run's whole workspace root takes a checkout inside it that a live Run owns. */
  lemma NestedCheckoutLost(env: Env, run: RunId, other: RunId, checkout: string, live: Run)
    requires env.isUuid(run) && env.isUuid(checkout) && other != run
    ensures var root := Workspace(Absolute([]), WORKSPACES, run, None);
            var shared := Workspace(Absolute([]), WORKSPACES, run, Some(checkout));
            var s := Store(map[other := live], {run}, map[], map[other := {shared}], {}, map[]);
            var disk := Disk({[], [WORKSPACES], [WORKSPACES, run], [WORKSPACES, run, checkout]}, {});
            && NeededBy(env, s, other, shared) && PathOf(env, shared) in disk.entries
            && SurelyLost(env, s, disk, Task(run, Manifest({root}, None, {}, None)), CALM, PathOf(env, shared))
  {
    var root := Workspace(Absolute([]), WORKSPACES, run, None);
    var shared := Workspace(Absolute([]), WORKSPACES, run, Some(checkout));
    var s := Store(map[other := live], {run}, map[], map[other := {shared}], {}, map[]);
    var disk := Disk({[], [WORKSPACES], [WORKSPACES, run], [WORKSPACES, run, checkout]}, {});
    var path := [WORKSPACES, run];
    assert PathOf(env, root) == path && PathOf(env, shared) == [WORKSPACES, run, checkout];
    forall k | 0 <= k <= 2
      ensures path[..k] in disk.entries
    {
      assert path[..0] == [] && path[..1] == [WORKSPACES] && path[..2] == path;
    }
    ThreeLevels(env, disk, run, root);
    CalmAttemptRemoves(env, s, disk, run, root, {}, PathOf(env, shared));
  }

  // ----- every run of attempts and other changes

  datatype World = World(store: Store, disk: Disk)

  datatype Action =
    | Attempt(run: RunId, luck: Luck)
    | Event(run: RunId, state: Run)
    | Remember(run: RunId, targets: set<Target>)
    | Delete(run: RunId, manifest: Manifest)
    | Enqueue(run: RunId, luck: Luck)
    | Touch(disk: Disk)

  ghost predicate Attempts(env: Env, w: World, run: RunId, luck: Luck, w': World, removed: bool, ok: bool) {
    && run in w.store.tasks
    && Attempted(env, w.store, w.disk, Task(run, w.store.tasks[run].manifest), luck, w'.store, w'.disk, removed, ok)
  }

  /** One change: an attempt at a pending task, news of a Run, its deletion, a new task, or work on the disk. */
  ghost predicate Next(env: Env, w: World, a: Action, w': World) {
    match a
    case Attempt(run, luck) => exists removed, ok :: Attempts(env, w, run, luck, w', removed, ok)
    case Event(run, state) =>
      && run !in w.store.deleted && (run in w.store.runs ==> w.store.runs[run].sequence < state.sequence)
      && w' == w.(store := w.store.(runs := w.store.runs[run := state], sources := w.store.sources + state.sources))
    case Remember(run, targets) =>
      && run !in w.store.deleted
      && w' == w.(store := w.store.(owned := w.store.owned[run := OwnedBy(w.store, run) + targets]))
    case Delete(run, m) =>
      && m.sequence == None
      && w' == w.(store := Enqueued(w.store, run, m).(runs := w.store.runs - {run}, deleted := w.store.deleted + {run}))
    case Enqueue(run, luck) =>
      && run in w.store.runs
      && var m := Collected(env, w.store, w.disk, run, luck);
         m.Ok? && w' == w.(store := Enqueued(w.store, run, m.value))
    case Touch(disk) => w' == w.(disk := disk)
  }

  ghost predicate At(env: Env, worlds: seq<World>, actions: seq<Action>, i: int)
    requires |worlds| == |actions| + 1 && 0 <= i < |actions|
  {
    TreeShaped(worlds[i].disk) && Next(env, worlds[i], actions[i], worlds[i + 1])
  }

  ghost predicate Trace(env: Env, worlds: seq<World>, actions: seq<Action>) {
    |worlds| == |actions| + 1 && forall i {:trigger At(env, worlds, actions, i)} :: 0 <= i < |actions| ==> At(env, worlds, actions, i)
  }

  lemma TracePrefix(env: Env, worlds: seq<World>, actions: seq<Action>)
    requires Trace(env, worlds, actions) && actions != []
    ensures var n := |actions| - 1; Trace(env, worlds[..n + 1], actions[..n]) && Next(env, worlds[n], actions[n], worlds[n + 1])
    ensures TreeShaped(worlds[|actions| - 1].disk)
  {
    var n := |actions| - 1;
    assert At(env, worlds, actions, n);
    forall i {:trigger At(env, worlds[..n + 1], actions[..n], i)} | 0 <= i < n
      ensures At(env, worlds[..n + 1], actions[..n], i)
    {
      assert At(env, worlds, actions, i);
    }
  }

  /** An attempt ended the Run's task: it was stale and nothing was touched, or all it had to remove is gone. */
  ghost predicate Settles(env: Env, w: World, a: Action, w': World, run: RunId) {
    && a.Attempt? && a.run == run && run in w.store.tasks
    && var plan := Plan(env, w.store, w.disk, Task(run, w.store.tasks[run].manifest), a.luck);
       || (plan.decision == Stale && w'.disk == w.disk)
       || (plan.decision.Go? && plan.decision.manifest.unresolved == None
           && AllGone(env, plan.store, run, plan.decision.manifest, w'.disk))
  }

  ghost predicate SettlesAt(env: Env, worlds: seq<World>, actions: seq<Action>, i: int, run: RunId) {
    |worlds| == |actions| + 1 && 0 <= i < |actions| && Settles(env, worlds[i], actions[i], worlds[i + 1], run)
  }

  lemma TaskStep(env: Env, w: World, a: Action, w': World, run: RunId)
    requires TreeShaped(w.disk) && Next(env, w, a, w') && run in w.store.tasks && run !in w'.store.tasks
    ensures Settles(env, w, a, w', run)
  {
    var removed, ok :| Attempts(env, w, a.run, a.luck, w', removed, ok);
    var task := Task(a.run, w.store.tasks[a.run].manifest);
    if ok {
      SuccessEndsOneTask(env, w.store, w.disk, task, a.luck, w'.store, w'.disk, removed, ok);
      FinishedOnlyWhenGone(env, w.store, w.disk, task, a.luck, w'.store, w'.disk, removed, ok);
    } else {
      FailureKeepsOwnership(env, w.store, w.disk, task, a.luck, w'.store, w'.disk, removed, ok);
    }
  }

  /** However often attempts fail and are retried, a task is kept until one of them settles it. */
  lemma {:induction false} TaskKeptUntilSettled(env: Env, worlds: seq<World>, actions: seq<Action>, run: RunId)
    requires Trace(env, worlds, actions)
    requires run in worlds[0].store.tasks && run !in worlds[|actions|].store.tasks
    ensures exists i :: SettlesAt(env, worlds, actions, i, run)
  {
    if actions != [] {
      var n := |actions| - 1;
      TracePrefix(env, worlds, actions);
      if run in worlds[n].store.tasks {
        TaskStep(env, worlds[n], actions[n], worlds[n + 1], run);
        assert SettlesAt(env, worlds, actions, n, run);
      } else {
        TaskKeptUntilSettled(env, worlds[..n + 1], actions[..n], run);
        var i :| SettlesAt(env, worlds[..n + 1], actions[..n], i, run);
        assert SettlesAt(env, worlds, actions, i, run);
      }
    }
  }

  /** An attempt whose roots hold a checkout directly in `p`, and everything else in it too. */
  ghost predicate Empties(env: Env, w: World, a: Action, p: Path) {
    && a.Attempt? && a.run in w.store.tasks
    && var plan := Plan(env, w.store, w.disk, Task(a.run, w.store.tasks[a.run].manifest), a.luck);
       plan.decision.Go? && MayBeEmptied(w.disk, Roots(env, plan.store, w.disk, a.run, plan.decision.manifest), p)
  }

  ghost predicate EmptiesAt(env: Env, worlds: seq<World>, actions: seq<Action>, i: int, p: Path) {
    |worlds| == |actions| + 1 && 0 <= i < |actions| && Empties(env, worlds[i], actions[i], p)
  }

  lemma SourceStep(env: Env, w: World, a: Action, w': World, source: Path)
    requires Lawful(env) && Next(env, w, a, w') && !a.Touch?
    requires source in w.store.sources && source in w.disk.entries
    ensures source in w'.store.sources
    ensures source !in w'.disk.entries ==> Empties(env, w, a, source)
  {
    if a.Attempt? {
      var removed, ok :| Attempts(env, w, a.run, a.luck, w', removed, ok);
      var task := Task(a.run, w.store.tasks[a.run].manifest);
      PlanKeepsOwnership(env, w.store, w.disk, task, a.luck);
      var plan := Plan(env, w.store, w.disk, task, a.luck);
      if source !in w'.disk.entries {
        var m := plan.decision.manifest;
        var roots := Roots(env, plan.store, w.disk, a.run, m);
        RootsAreSafe(env, plan.store, w.disk, a.run, m, a.run, Data("", ""));
        assert Taken(w.disk, roots, a.luck.faults, source);
      }
    }
  }

  /** Over any run in which only cleanup touches the disk, a recorded source folder disappears only as an emptied owner directory. */
  lemma {:induction false} SourcesSurvive(env: Env, worlds: seq<World>, actions: seq<Action>, source: Path)
    requires Lawful(env) && Trace(env, worlds, actions) && forall i :: 0 <= i < |actions| ==> !actions[i].Touch?
    requires source in worlds[0].store.sources && source in worlds[0].disk.entries
    ensures source in worlds[|actions|].store.sources
    ensures source !in worlds[|actions|].disk.entries ==> exists i :: EmptiesAt(env, worlds, actions, i, source)
  {
    if actions != [] {
      var n := |actions| - 1;
      TracePrefix(env, worlds, actions);
      var worlds', actions' := worlds[..n + 1], actions[..n];
      SourcesSurvive(env, worlds', actions', source);
      assert worlds'[n] == worlds[n] && worlds'[0] == worlds[0];
      if source in worlds[n].disk.entries {
        SourceStep(env, worlds[n], actions[n], worlds[n + 1], source);
        assert source !in worlds[n + 1].disk.entries ==> EmptiesAt(env, worlds, actions, n, source);
      } else {
        SourceStepKept(env, worlds[n], actions[n], worlds[n + 1], source);
        var i :| EmptiesAt(env, worlds', actions', i, source);
        assert EmptiesAt(env, worlds, actions, i, source);
      }
    }
  }

  lemma SourceStepKept(env: Env, w: World, a: Action, w': World, source: Path)
    requires Next(env, w, a, w') && source in w.store.sources
    ensures source in w'.store.sources
  {
    if a.Attempt? {
      PlanKeepsOwnership(env, w.store, w.disk, Task(a.run, w.store.tasks[a.run].manifest), a.luck);
    }
  }

  /** In particular a folder that no checkout may stand in directly: one not inside a workspace bucket. */
  lemma OrdinarySourcesSurvive(env: Env, worlds: seq<World>, actions: seq<Action>, source: Path)
    requires Lawful(env) && Trace(env, worlds, actions) && forall i :: 0 <= i < |actions| ==> !actions[i].Touch?
    requires source in worlds[0].store.sources && source in worlds[0].disk.entries
    requires |source| < 2 || source[|source| - 2] != WORKSPACES
    ensures source in worlds[|actions|].disk.entries
  {
    SourcesSurvive(env, worlds, actions, source);
    if i :| EmptiesAt(env, worlds, actions, i, source) {
      var w, a := worlds[i], actions[i];
      var plan := Plan(env, w.store, w.disk, Task(a.run, w.store.tasks[a.run].manifest), a.luck);
      OwnerNames(Roots(env, plan.store, w.disk, a.run, plan.decision.manifest), source);
    }
  }

  // ----- what other Runs need, over every run

  /** An attempt at another Run's task takes the path from outside: with a directory strictly above it, or as an owner
      directory that holds nothing else. */
  ghost predicate TakesFromOutside(env: Env, w: World, a: Action, other: RunId, p: Path) {
    && a.Attempt? && a.run != other && a.run in w.store.tasks
    && var plan := Plan(env, w.store, w.disk, Task(a.run, w.store.tasks[a.run].manifest), a.luck);
    && plan.decision.Go?
    && var roots := Roots(env, plan.store, w.disk, a.run, plan.decision.manifest);
       (exists r :: r in roots && r < p) || (MayBeEmptied(w.disk, roots, p) && p !in a.luck.faults.stuck)
  }

  ghost predicate TakenAt(env: Env, worlds: seq<World>, actions: seq<Action>, i: int, other: RunId, p: Path) {
    |worlds| == |actions| + 1 && 0 <= i < |actions|
    && ((actions[i].Attempt? && actions[i].run == other) || TakesFromOutside(env, worlds[i], actions[i], other, p))
  }

  ghost predicate Needs(env: Env, w: World, run: RunId, t: Target) {
    run in w.store.runs && NeededBy(env, w.store, run, t)
  }

  /** One step, with whatever faults: what another Run needs disappears only with a directory above it, or as an
      emptied owner directory. */
  lemma NeededStep(env: Env, w: World, a: Action, w': World, other: RunId, t: Target)
    requires Lawful(env) && Next(env, w, a, w') && !a.Touch? && ValidTarget(env, other, t) && Needs(env, w, other, t)
    requires PathOf(env, t) in w.disk.entries && PathOf(env, t) !in w'.disk.entries
    ensures a.Attempt? && (a.run == other || TakesFromOutside(env, w, a, other, PathOf(env, t)))
  {
    if a.run != other {
      var p, task := PathOf(env, t), Task(a.run, w.store.tasks[a.run].manifest);
      var removed, ok :| Attempts(env, w, a.run, a.luck, w', removed, ok);
      var plan := Plan(env, w.store, w.disk, task, a.luck);
      PlanKeepsOwnership(env, w.store, w.disk, task, a.luck);
      var m := plan.decision.manifest;
      var roots := Roots(env, plan.store, w.disk, a.run, m);
      assert NeededBy(env, plan.store, other, t);
      RootsAreSafe(env, plan.store, w.disk, a.run, m, other, t);
      assert Taken(w.disk, roots, a.luck.faults, p);
      StrictlyUnder(roots, p);
    }
  }

  /** Over any run in which only cleanup touches the disk, with whatever faults and retries, what a Run needs all along
      disappears only in an attempt of its own, with a directory above it, or as an emptied owner directory. */
  lemma {:induction false} NeededSurvives(env: Env, worlds: seq<World>, actions: seq<Action>, other: RunId, t: Target)
    requires Lawful(env) && Trace(env, worlds, actions) && forall i :: 0 <= i < |actions| ==> !actions[i].Touch?
    requires ValidTarget(env, other, t) && forall i :: 0 <= i < |actions| ==> Needs(env, worlds[i], other, t)
    requires PathOf(env, t) in worlds[0].disk.entries && PathOf(env, t) !in worlds[|actions|].disk.entries
    ensures exists i :: TakenAt(env, worlds, actions, i, other, PathOf(env, t))
  {
    if actions != [] {
      var n := |actions| - 1;
      TracePrefix(env, worlds, actions);
      if PathOf(env, t) in worlds[n].disk.entries {
        NeededStep(env, worlds[n], actions[n], worlds[n + 1], other, t);
        assert TakenAt(env, worlds, actions, n, other, PathOf(env, t));
      } else {
        var worlds', actions' := worlds[..n + 1], actions[..n];
        assert worlds'[n] == worlds[n] && worlds'[0] == worlds[0];
        NeededSurvives(env, worlds', actions', other, t);
        var i :| TakenAt(env, worlds', actions', i, other, PathOf(env, t));
        assert TakenAt(env, worlds, actions, i, other, PathOf(env, t));
      }
    }
  }

  /** The target's trusted root holds a protected source, and no owner directory has its path. A shadow root must not
      stand in the data directory. */
  ghost predicate InPlace(env: Env, t: Target, source: Path) {
    && RootOf(env, t) <= source
    && (t.Workspace? && t.checkout == None ==> t.bucket == WORKTREES)
    && (t.Shadow? ==> !(env.data < RootOf(env, t)))
  }

  lemma InPlaceNotCovered(env: Env, s: Store, disk: Disk, run: RunId, m: Manifest, other: RunId, t: Target, source: Path, r: Path)
    requires Lawful(env) && ValidTarget(env, other, t) && InPlace(env, t, source) && source in m.protectedSources
    requires (t.Workspace? ==> t.owner != run) && r in Roots(env, s, disk, run, m)
    ensures !(r < PathOf(env, t))
  {
    var u := RootIs(env, s, disk, run, m, r);
    LastNames(env, u);
    if r < PathOf(env, t) {
      NestedIs(env, run, other, u, t);
    }
  }

  lemma InPlaceNotEmptied(env: Env, run: RunId, t: Target, source: Path, roots: set<Path>)
    requires Lawful(env) && ValidTarget(env, run, t) && InPlace(env, t, source)
    ensures !OwnerOf(roots, PathOf(env, t))
  {
    LastNames(env, t);
    if OwnerOf(roots, PathOf(env, t)) {
      OwnerNames(roots, PathOf(env, t));
    }
  }

  /** An attempt at a Run that does not own such a target cannot take it from outside. */
  lemma InPlaceIsSafe(env: Env, w: World, a: Action, other: RunId, t: Target, source: Path)
    requires Lawful(env) && ValidTarget(env, other, t) && InPlace(env, t, source) && source in w.store.sources
    requires a.Attempt? && (t.Workspace? ==> t.owner != a.run)
    ensures !TakesFromOutside(env, w, a, other, PathOf(env, t))
  {
    if TakesFromOutside(env, w, a, other, PathOf(env, t)) {
      var task := Task(a.run, w.store.tasks[a.run].manifest);
      var plan := Plan(env, w.store, w.disk, task, a.luck);
      PlanKeepsOwnership(env, w.store, w.disk, task, a.luck);
      var m := plan.decision.manifest;
      var roots := Roots(env, plan.store, w.disk, a.run, m);
      InPlaceNotEmptied(env, other, t, source, roots);
      var r :| r in roots && r < PathOf(env, t);
      InPlaceNotCovered(env, plan.store, w.disk, a.run, m, other, t, source, r);
    }
  }

  /** Over any run in which attempts, with whatever faults, are made only at Runs that neither are the one in need nor
      own the checkout it needs, the target stays on the disk. */
  lemma {:induction false} NeededInPlaceSurvives(env: Env, worlds: seq<World>, actions: seq<Action>, other: RunId, t: Target,
        source: Path)
    requires Lawful(env) && Trace(env, worlds, actions) && forall i :: 0 <= i < |actions| ==> !actions[i].Touch?
    requires ValidTarget(env, other, t) && forall i :: 0 <= i < |actions| ==> Needs(env, worlds[i], other, t)
    requires forall i :: 0 <= i < |actions| && actions[i].Attempt? ==>
               actions[i].run != other && (t.Workspace? ==> actions[i].run != t.owner)
    requires InPlace(env, t, source) && source in worlds[0].store.sources && PathOf(env, t) in worlds[0].disk.entries
    ensures PathOf(env, t) in worlds[|actions|].disk.entries && source in worlds[|actions|].store.sources
  {
    if actions != [] {
      var n := |actions| - 1;
      TracePrefix(env, worlds, actions);
      var worlds', actions' := worlds[..n + 1], actions[..n];
      assert worlds'[n] == worlds[n] && worlds'[0] == worlds[0];
      NeededInPlaceSurvives(env, worlds', actions', other, t, source);
      SourceStepKept(env, worlds[n], actions[n], worlds[n + 1], source);
      if actions[n].Attempt? {
        InPlaceIsSafe(env, worlds[n], actions[n], other, t, source);
      }
      if PathOf(env, t) !in worlds[n + 1].disk.entries {
        NeededStep(env, worlds[n], actions[n], worlds[n + 1], other, t);
      }
    }
  }

  // ----- what a collection may claim

  /** A legacy target is valid, covers the recorded path, and reaches beyond it only into the Run's own worktrees. */
  lemma LegacyCovers(env: Env, disk: Disk, p: Path, run: RunId)
    requires LegacyWorkspace(env, disk, Absolute(p), run).Some?
    ensures var t := LegacyWorkspace(env, disk, Absolute(p), run).value;
            && ValidTarget(env, run, t) && PathOf(env, t) <= p
            && (PathOf(env, t) == p || (t.bucket == WORKTREES && t.owner == run && PathOf(env, t) == Parent(p)))
  {
    var n := |p|;
    assert p == p[..n - 3] + [p[n - 3], p[n - 2], p[n - 1]];
    assert Parent(p) == p[..n - 3] + [p[n - 3], p[n - 2]];
  }

  /** The Run has the checkout on record under the checkout's own id. */
  ghost predicate OnRecord(env: Env, disk: Disk, run: RunId, state: Run, t: Target) {
    exists e :: e in state.executions + state.planning && LegacyWorkspace(env, disk, e.place, run) == Some(t)
                && t.Workspace? && t.checkout == Some(e.id)
  }

  /** A target that a collection may add: valid, and the Run's own workspace or on record under its own id. */
  ghost predicate Belongs(env: Env, disk: Disk, run: RunId, state: Run, t: Target) {
    t.Workspace? && ValidTarget(env, run, t) && (t.owner == run || OnRecord(env, disk, run, state, t))
  }

  lemma LegacyBelongs(env: Env, disk: Disk, run: RunId, state: Run, t: Target)
    requires t in Legacy(env, disk, run, state)
    ensures Belongs(env, disk, run, state, t)
  {
    var e :| e in state.executions + state.planning && LegacyWorkspace(env, disk, e.place, run) == Some(t)
             && (ByExecution(env, disk, run, e) || ByMarker(env, disk, run, e));
    LegacyCovers(env, disk, e.place.path, run);
  }

  lemma MissingBelongs(env: Env, disk: Disk, run: RunId, state: Run, repository: Path, targets: set<Target>, t: Target)
    requires t in MissingSource(env, run, repository, targets)
    requires forall u :: u in targets && u.Workspace? ==> ValidTarget(env, run, u)
    ensures Belongs(env, disk, run, state, t)
  {}

  lemma BoundBelongs(env: Env, s: Store, disk: Disk, run: RunId, luck: Luck, t: Target)
    requires run in s.runs && Bound(env, s, disk, run, luck).Ok?
    requires t in Bound(env, s, disk, run, luck).value && t.Workspace? && t !in OwnedBy(s, run)
    ensures Belongs(env, disk, run, s.runs[run], t)
  {}

  /** What a collection adds to the targets on record is valid, and is the Run's own workspace or a checkout that the
      Run has on record under its own id. */
  lemma CollectedBelongs(env: Env, s: Store, disk: Disk, run: RunId, luck: Luck, t: Target)
    requires run in s.runs && Collected(env, s, disk, run, luck).Ok?
    requires t in Collected(env, s, disk, run, luck).value.targets && t !in OwnedBy(s, run)
    requires forall o :: o in OwnedBy(s, run) ==> ValidTarget(env, run, o)
    ensures Belongs(env, disk, run, s.runs[run], t)
  {
    var state := s.runs[run];
    var bound := Bound(env, s, disk, run, luck).value;
    var known := bound + Legacy(env, disk, run, state);
    forall u | u in known && u.Workspace? && u !in OwnedBy(s, run)
      ensures Belongs(env, disk, run, state, u)
    {
      if u in Legacy(env, disk, run, state) {
        LegacyBelongs(env, disk, run, state, u);
      } else {
        BoundBelongs(env, s, disk, run, luck, u);
      }
    }
    if t !in known {
      var missing := MissingBinding(disk, state, luck).value;
      MissingBelongs(env, disk, run, state, if missing.Relative? then [] else missing.path, known, t);
    }
  }

  /** A binding stays unresolved only if its path cannot tell where the workspaces of the Run stood. */
  lemma UnresolvedIff(env: Env, s: Store, disk: Disk, run: RunId, luck: Luck)
    requires run in s.runs && Collected(env, s, disk, run, luck).Ok?
    ensures var state := s.runs[run];
            var known := Bound(env, s, disk, run, luck).value + Legacy(env, disk, run, state);
            Collected(env, s, disk, run, luck).value.unresolved.Some? <==>
              && state.config.Some? && state.config.value.repository.Absolute?
              && var path := state.config.value.repository.path;
                 !IsDir(disk, path) && env.isUuid(run) && OnlyWorkspaces(known) == {} && (path == [] || ".." in path)
  {
    var state := s.runs[run];
    var missing := MissingBinding(disk, state, luck);
    var known := Bound(env, s, disk, run, luck).value + Legacy(env, disk, run, state);
    if missing.Some? && missing.value.Absolute? && env.isUuid(run) {
      var path := missing.value.path;
      var found := MissingSource(env, run, path, known);
      if OnlyWorkspaces(known) != {} {
        var t :| t in OnlyWorkspaces(known);
        assert t in OnlyWorkspaces(known + found);
      } else if path != [] && ".." !in path {
        var t := Workspace(Absolute(Parent(path)), WORKTREES, run, None);
        assert Parents(known) == {};
        assert t in OnlyWorkspaces(known + found);
      } else {
        assert Parents(known) == {};
        assert OnlyWorkspaces(known + found) == OnlyWorkspaces(known);
      }
    }
  }

  // ----- the attempt as it runs

  class Cleaner {
    const env: Env
    var store: Store
    var disk: Disk

    constructor (env: Env, store: Store, disk: Disk)
      ensures this.env == env && this.store == store && this.disk == disk
    {
      this.env, this.store, this.disk := env, store, disk;
    }

    /** The admission checks of `execute`; `None` means refused, and a finished stale task says so. */
    method Prepare(task: Task, luck: Luck) returns (manifest: Option<Manifest>, ghost prepared: Prepared)
      requires !(task.manifest.sequence.Some? && task.run in store.runs
                 && store.runs[task.run].sequence != task.manifest.sequence.value)
      modifies this`store
      ensures prepared == Plan(env, old(store), disk, task, luck) && store == prepared.store
      ensures prepared.decision == if manifest.Some? then Go(manifest.value) else Refused
    {
      var m := task.manifest;
      var run := task.run;
      prepared := Plan(env, store, disk, task, luck);
      if m.sequence.Some? && run in store.runs {
        if Active(store.runs[run]) {
          return None, prepared;
        }
        var collected := Collected(env, store, disk, run, luck);
        if collected.Err? {
          return None, prepared;
        }
        m := collected.value;
        store := Enqueued(store, run, m);
      } else if run !in store.deleted {
        return None, prepared;
      }
      if m.unresolved.Some? {
        var found := Found(env, disk, run, m.unresolved.value, m.targets, luck);
        if found.Err? {
          return None, prepared;
        }
        OnlyWorkspacesIs(found.value);
        if exists t :: t in found.value && t.Workspace? {
          m := m.(targets := m.targets + found.value, unresolved := None);
          store := Enqueued(store, run, m);
        }
      }
      if !AllResolve(env, disk, run, m.targets) || !luck.prunes {
        return None, prepared;
      }
      manifest := Some(m.(protectedSources := m.protectedSources + store.sources));
    }

    /** The loop over the targets: what is neither shared, nor gone, nor above a protected source. */
    method CollectRoots(run: RunId, m: Manifest) returns (paths: set<Path>)
      ensures paths == Roots(env, store, disk, run, m)
    {
      paths := {};
      var todo := m.targets;
      while todo != {}
        invariant todo <= m.targets
        invariant paths == Roots(env, store, disk, run, m.(targets := m.targets - todo))
        decreases |todo|
      {
        var target :| target in todo;
        ghost var before := m.targets - todo;
        assert m.targets - (todo - {target}) == before + {target};
        RootsGrow(env, store, disk, run, m, before, target);
        todo := todo - {target};
        var path := Consider(run, m, target);
        if path.Some? {
          paths := paths + {path.value};
        }
      }
      assert m.targets - {} == m.targets;
    }

    method Consider(run: RunId, m: Manifest, target: Target) returns (path: Option<Path>)
      ensures path == if IsRoot(env, store, disk, run, m, target) then Some(PathOf(env, target)) else None
    {
      if Shared(env, store, run, target) {
        return None;
      }
      var resolved := Resolve(env, disk, run, target);
      WalkIs(disk, PathOf(env, target), |RootOf(env, target)|);
      if resolved.Ok? && resolved.value.Some? && !Protected(m, resolved.value.value) {
        return resolved.value;
      }
      path := None;
    }

    /** `execute`, then what `attempt` records of a failure. */
    method Attempt(task: Task, luck: Luck) returns (ok: bool, ghost removed: bool)
      requires TreeShaped(disk)
      modifies this
      ensures Attempted(env, old(store), old(disk), task, luck, store, disk, removed, ok)
    {
      ghost var s1: Store;
      ok, removed, s1 := Execute(task, luck);
      if !ok && task.run in store.tasks {
        var row := store.tasks[task.run];
        store := store.(tasks := store.tasks[task.run := Row(row.manifest, row.attempts + 1, true)]);
      }
    }

    method Execute(task: Task, luck: Luck) returns (ok: bool, ghost removed: bool, ghost s1: Store)
      requires TreeShaped(disk)
      modifies this
      ensures s1 == store && Executed(env, old(store), old(disk), task, luck, store, disk, removed, ok)
    {
      var run := task.run;
      removed := false;
      if task.manifest.sequence.Some? && run in store.runs && store.runs[run].sequence != task.manifest.sequence.value {
        store := Finished(store, run);
        return true, removed, store;
      }
      var manifest, prepared := Prepare(task, luck);
      if manifest == None {
        return false, removed, store;
      }
      var roots := CollectRoots(run, manifest.value);
      var removedAll: bool;
      disk, removedAll := RemovePaths(disk, roots, luck.faults);
      removed := removedAll;
      if !removedAll || manifest.value.unresolved.Some? {
        return false, removed, store;
      }
      store := Finished(store, run);
      return true, removed, store;
    }
  }

  lemma RootsGrow(env: Env, s: Store, disk: Disk, run: RunId, m: Manifest, before: set<Target>, t: Target)
    ensures Roots(env, s, disk, run, m.(targets := before + {t})) ==
            Roots(env, s, disk, run, m.(targets := before))
            + if IsRoot(env, s, disk, run, m, t) then {PathOf(env, t)} else {}
  {
    forall u, targets
      ensures IsRoot(env, s, disk, run, m.(targets := targets), u) <==> IsRoot(env, s, disk, run, m, u)
    {
      assert Protected(m.(targets := targets), PathOf(env, u)) <==> Protected(m, PathOf(env, u));
    }
  }
}
