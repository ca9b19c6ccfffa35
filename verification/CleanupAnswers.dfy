/** What cleanup promises about Runs at work, about the layout of directories, and about what history needs, in terms
    of the fields on record. */
module CleanupAnswers {
  import opened Wrappers
  import opened Cleanup

  // ----- Runs at work

  /** A node runs, or the Run is planning, publishing or merging. */
  ghost predicate AtWork(r: Run) {
    r.nodeRunning || r.phase in {"planning", "publishing", "merging"}
  }

  /** An attempt at a Run that is at work where the task left it: refused, the disk as it was, the task kept and its
      failure counted. */
  lemma AtWorkLeftAlone(env: Env, s: Store, disk: Disk, task: Task, luck: Luck, s': Store, disk': Disk,
        removed: bool, ok: bool)
    requires Attempted(env, s, disk, task, luck, s', disk', removed, ok)
    requires task.run in s.runs && task.manifest.sequence == Some(s.runs[task.run].sequence) && AtWork(s.runs[task.run])
    ensures !ok && !removed && disk' == disk
    ensures s' == s.(tasks := s'.tasks) && s'.tasks.Keys == s.tasks.Keys
    ensures forall r :: r in s.tasks ==>
              s'.tasks[r] == if r == task.run then Row(s.tasks[r].manifest, s.tasks[r].attempts + 1, true) else s.tasks[r]
  {
    assert Active(s.runs[task.run]);
  }

  /** Being at work is all that keeps a Run whose targets can be collected from being cleaned. */
  lemma IdleGoesOn(env: Env, s: Store, disk: Disk, task: Task, luck: Luck)
    requires task.run in s.runs && task.manifest.sequence == Some(s.runs[task.run].sequence)
    requires Collected(env, s, disk, task.run, luck).Ok?
    ensures Admit(env, s, disk, task, luck).decision ==
            if AtWork(s.runs[task.run]) then Refused else Go(Collected(env, s, disk, task.run, luck).value)
  {
    assert Active(s.runs[task.run]) <==> AtWork(s.runs[task.run]);
  }

  /** Without a Run with events, only a tombstone admits the task, and then with the targets it was given. */
  lemma GoneRunNeedsTombstone(env: Env, s: Store, disk: Disk, task: Task, luck: Luck)
    requires task.run !in s.runs || task.manifest.sequence == None
    ensures Admit(env, s, disk, task, luck) == Prepared(s, if task.run in s.deleted then Go(task.manifest) else Refused)
  {}

  /** An attempt creates nothing on the disk and changes no link. */
  lemma OnlyRemoves(env: Env, s: Store, disk: Disk, task: Task, luck: Luck, s': Store, disk': Disk,
        removed: bool, ok: bool)
    requires Attempted(env, s, disk, task, luck, s', disk', removed, ok)
    ensures disk'.entries <= disk.entries && disk'.blocked == disk.blocked
  {
    var s1 :| Executed(env, s, disk, task, luck, s1, disk', removed, ok);
    ExecutedOnlyRemoves(env, s, disk, task, luck, s1, disk', removed, ok, Plan(env, s, disk, task, luck));
  }

  lemma ExecutedOnlyRemoves(env: Env, s: Store, disk: Disk, task: Task, luck: Luck, s': Store, disk': Disk,
        removed: bool, ok: bool, plan: Prepared)
    requires Executed(env, s, disk, task, luck, s', disk', removed, ok) && plan == Plan(env, s, disk, task, luck)
    ensures disk'.entries <= disk.entries && disk'.blocked == disk.blocked
  {
    match plan.decision
    case Stale =>
    case Refused =>
    case Go(m) => assert Removes(disk, Roots(env, plan.store, disk, task.run, m), luck.faults, disk', removed);
  }

  ghost predicate LiveAtWork(w: World, run: RunId) {
    run in w.store.runs && run !in w.store.deleted && AtWork(w.store.runs[run])
  }

  /** An attempt at the task of a live Run at work does not touch the disk, however old the task is. */
  lemma OwnAttemptIdle(env: Env, w: World, a: Action, w': World)
    requires a.Attempt? && Next(env, w, a, w') && LiveAtWork(w, a.run)
    ensures w'.disk == w.disk
  {
    var removed, ok :| Attempts(env, w, a.run, a.luck, w', removed, ok);
    var task := Task(a.run, w.store.tasks[a.run].manifest);
    assert Active(w.store.runs[a.run]);
    assert !Admit(env, w.store, w.disk, task, a.luck).decision.Go?;
  }

  ghost predicate TakenFromOutsideAt(env: Env, worlds: seq<World>, actions: seq<Action>, i: int, run: RunId, p: Path) {
    |worlds| == |actions| + 1 && 0 <= i < |actions| && TakesFromOutside(env, worlds[i], actions[i], run, p)
  }

  lemma AtWorkStep(env: Env, w: World, a: Action, w': World, run: RunId, t: Target)
    requires Lawful(env) && Next(env, w, a, w') && !a.Touch? && ValidTarget(env, run, t)
    requires LiveAtWork(w, run) && Needs(env, w, run, t)
    requires PathOf(env, t) in w.disk.entries && PathOf(env, t) !in w'.disk.entries
    ensures TakesFromOutside(env, w, a, run, PathOf(env, t))
  {
    NeededStep(env, w, a, w', run, t);
    if a.run == run {
      OwnAttemptIdle(env, w, a, w');
    }
  }

  lemma TakenEarlier(env: Env, worlds: seq<World>, actions: seq<Action>, n: nat, i: int, run: RunId, path: Path)
    requires |worlds| == |actions| + 1 && n <= |actions|
    requires TakenFromOutsideAt(env, worlds[..n + 1], actions[..n], i, run, path)
    ensures TakenFromOutsideAt(env, worlds, actions, i, run, path)
  {}

  /** Over any run of attempts, with whatever faults and retries: while a Run is at work, what it needs can only be taken
      by an attempt at another Run, with a directory above it or as an emptied owner directory. */
  lemma {:induction false} AtWorkKeeps(env: Env, worlds: seq<World>, actions: seq<Action>, run: RunId, t: Target)
    returns (i: int)
    requires Lawful(env) && Trace(env, worlds, actions) && forall i :: 0 <= i < |actions| ==> !actions[i].Touch?
    requires ValidTarget(env, run, t)
    requires forall i :: 0 <= i < |actions| ==> LiveAtWork(worlds[i], run) && Needs(env, worlds[i], run, t)
    requires PathOf(env, t) in worlds[0].disk.entries && PathOf(env, t) !in worlds[|actions|].disk.entries
    ensures TakenFromOutsideAt(env, worlds, actions, i, run, PathOf(env, t))
  {
    if actions != [] {
      var n := |actions| - 1;
      TracePrefix(env, worlds, actions);
      if PathOf(env, t) in worlds[n].disk.entries {
        assert LiveAtWork(worlds[n], run) && Needs(env, worlds[n], run, t);
        AtWorkStep(env, worlds[n], actions[n], worlds[n + 1], run, t);
        i := n;
      } else {
        assert worlds[..n + 1][n] == worlds[n] && worlds[..n + 1][0] == worlds[0];
        i := AtWorkKeeps(env, worlds[..n + 1], actions[..n], run, t);
        TakenEarlier(env, worlds, actions, n, i, run, PathOf(env, t));
      }
    }
  }

  /** In particular its own worktrees and checkouts, in a place that holds a recorded source, stay whatever is attempted. */
  lemma {:induction false} AtWorkInPlaceSurvives(env: Env, worlds: seq<World>, actions: seq<Action>, run: RunId, t: Target,
        source: Path)
    requires Lawful(env) && Trace(env, worlds, actions) && forall i :: 0 <= i < |actions| ==> !actions[i].Touch?
    requires ValidTarget(env, run, t) && (t.Workspace? ==> t.owner == run)
    requires forall i :: 0 <= i < |actions| ==> LiveAtWork(worlds[i], run) && Needs(env, worlds[i], run, t)
    requires InPlace(env, t, source) && source in worlds[0].store.sources && PathOf(env, t) in worlds[0].disk.entries
    ensures PathOf(env, t) in worlds[|actions|].disk.entries && source in worlds[|actions|].store.sources
  {
    if actions != [] {
      var n := |actions| - 1;
      TracePrefix(env, worlds, actions);
      var worlds', actions' := worlds[..n + 1], actions[..n];
      assert worlds'[n] == worlds[n] && worlds'[0] == worlds[0];
      AtWorkInPlaceSurvives(env, worlds', actions', run, t, source);
      SourceStepKept(env, worlds[n], actions[n], worlds[n + 1], source);
      assert LiveAtWork(worlds[n], run);
      AtWorkInPlaceStep(env, worlds[n], actions[n], worlds[n + 1], run, t, source);
    }
  }

  lemma AtWorkInPlaceStep(env: Env, w: World, a: Action, w': World, run: RunId, t: Target, source: Path)
    requires Lawful(env) && Next(env, w, a, w') && !a.Touch?
    requires ValidTarget(env, run, t) && (t.Workspace? ==> t.owner == run)
    requires LiveAtWork(w, run) && Needs(env, w, run, t)
    requires InPlace(env, t, source) && source in w.store.sources && PathOf(env, t) in w.disk.entries
    ensures PathOf(env, t) in w'.disk.entries
  {
    if a.Attempt? && a.run == run {
      OwnAttemptIdle(env, w, a, w');
    } else if a.Attempt? {
      InPlaceIsSafe(env, w, a, run, t, source);
    }
    if PathOf(env, t) !in w'.disk.entries {
      NeededStep(env, w, a, w', run, t);
    }
  }

  // ----- the layout

  /** A project, an underscore, sixteen hex digits, and the ending. */
  ghost predicate IsShadowName(name: string) {
    exists project, digits :: name == project + "_" + digits + ".git" && ShadowParts(project, digits)
  }

  ghost predicate ShadowParts(project: string, digits: string) {
    && project != "" && '/' !in project && '\\' !in project
    && |digits| == 16 && forall c :: c in digits ==> '0' <= c <= '9' || 'a' <= c <= 'f' || 'A' <= c <= 'F'
  }

  lemma ShadowHasParts(name: string)
    requires ShadowName(name)
    ensures IsShadowName(name)
  {
    var n := |name|;
    var project, digits := name[..n - 21], name[n - 20..n - 4];
    assert name == project + "_" + digits + ".git";
    assert forall i :: 0 <= i < 16 ==> digits[i] == name[n - 20 + i];
    assert ShadowParts(project, digits);
  }

  lemma PartsAreShadow(project: string, digits: string)
    requires ShadowParts(project, digits)
    ensures ShadowName(project + "_" + digits + ".git")
  {
    var name := project + "_" + digits + ".git";
    var n := |name|;
    assert name[n - 4..] == ".git" && name[n - 21] == '_';
    assert forall i :: 0 <= i < 16 ==> name[n - 20 + i] == digits[i] && digits[i] in digits;
    assert forall i :: 0 <= i < n - 21 ==> name[i] == project[i] && project[i] in project;
  }

  lemma ShadowNameIff(name: string)
    ensures ShadowName(name) <==> IsShadowName(name)
  {
    if ShadowName(name) {
      ShadowHasParts(name);
    }
    if project, digits :| name == project + "_" + digits + ".git" && ShadowParts(project, digits) {
      PartsAreShadow(project, digits);
    }
  }

  /** A data directory is named by letters, digits, dashes and underscores. */
  ghost predicate IsDataPath(env: Env, bucket: string, id: string, p: Path) {
    && p == env.data + [bucket, id]
    && bucket in {"sessions", "planning", "mergers", "planner-sessions", "partition-workers", "environments",
                  "file-changes", "attachment-inputs"}
    && 1 <= |id| <= 128
    && forall c :: c in id ==> c in "-_" || 'a' <= c <= 'z' || 'A' <= c <= 'Z' || '0' <= c <= '9'
  }

  /** A Run's own root in either bucket, or one checkout of any owner. */
  ghost predicate IsWorkspacePath(env: Env, run: RunId, parent: Path, bucket: string, owner: string, checkout: Option<string>, p: Path) {
    env.isUuid(owner)
    && match checkout
       case None => owner == run && bucket in {".grapher-worktrees", ".grapher-workspaces"} && p == parent + [bucket, run]
       case Some(id) => bucket == ".grapher-workspaces" && env.isUuid(id) && p == parent + [".grapher-workspaces", owner, id]
  }

  ghost predicate InLayout(env: Env, run: RunId, t: Target, p: Path) {
    match t
    case Data(bucket, id) => IsDataPath(env, bucket, id, p)
    case Workspace(parent, bucket, owner, checkout) =>
      parent.Absolute? && IsWorkspacePath(env, run, parent.path, bucket, owner, checkout, p)
    case Shadow(root, name, _) => root.Absolute? && IsShadowName(name) && p == root.path + ["shadow_repos", name]
  }

  /** A target is valid exactly when it is in the layout, and its path says where. */
  lemma ValidIffInLayout(env: Env, run: RunId, t: Target)
    ensures ValidTarget(env, run, t) <==> InLayout(env, run, t, PathOf(env, t))
  {
    if t.Shadow? {
      ShadowNameIff(t.name);
    }
    if t.Data? {
      assert forall c :: c in "-_" <==> c == '-' || c == '_';
    }
  }

  ghost predicate There(disk: Disk, path: Path, k: int)
    requires 0 <= k <= |path|
  {
    path[..k] in disk.entries && path[..k] !in disk.blocked
  }

  /** Some directory on the way is a link or no directory, and all before it are there. */
  ghost predicate Obstructed(disk: Disk, path: Path, n: nat) {
    exists k :: n <= k <= |path| && path[..k] in disk.blocked && forall j :: n <= j < k ==> There(disk, path, j)
  }

  lemma {:induction false} WalkIff(disk: Disk, path: Path, n: nat)
    requires n <= |path|
    ensures Walk(disk, path, n) == Ok(Some(path)) <==> forall k :: n <= k <= |path| ==> There(disk, path, k)
    ensures Walk(disk, path, n).Err? <==> Obstructed(disk, path, n)
    decreases |path| - n
  {
    if path[..n] in disk.blocked {
      assert Obstructed(disk, path, n);
      assert !There(disk, path, n);
    } else if path[..n] !in disk.entries {
      assert !There(disk, path, n);
    } else if n < |path| {
      WalkIff(disk, path, n + 1);
      if Obstructed(disk, path, n + 1) {
        var k :| n + 1 <= k <= |path| && path[..k] in disk.blocked && forall j :: n + 1 <= j < k ==> There(disk, path, j);
        assert Obstructed(disk, path, n);
      }
    }
  }

  /** A target resolves to its path exactly when it is in the layout and every directory from its trusted root on is
      there; it is refused when it is not in the layout, or something on the way is a link or no directory. */
  lemma ResolveIff(env: Env, disk: Disk, run: RunId, t: Target)
    ensures var path, n := PathOf(env, t), |RootOf(env, t)|;
            && (Resolve(env, disk, run, t) == Ok(Some(path)) <==>
                 InLayout(env, run, t, path) && forall k :: n <= k <= |path| ==> There(disk, path, k))
            && (Resolve(env, disk, run, t).Err? <==> !InLayout(env, run, t, path) || Obstructed(disk, path, n))
  {
    ValidIffInLayout(env, run, t);
    WalkIff(disk, PathOf(env, t), |RootOf(env, t)|);
  }

  // ----- owner directories

  /** A path that has the layout of a checkout, in whatever parent. */
  lemma CheckoutIs(p: Path)
    ensures CheckoutShaped(p) <==> exists parent, owner, checkout :: p == parent + [".grapher-workspaces", owner, checkout]
  {
    var n := |p|;
    if CheckoutShaped(p) {
      assert p == p[..n - 3] + [".grapher-workspaces", p[n - 2], p[n - 1]];
    }
  }

  ghost predicate Covered(roots: set<Path>, p: Path) {
    exists k :: 0 <= k <= |p| && p[..k] in roots
  }

  /** `p` is the directory of an owner one of whose checkouts is removed. */
  ghost predicate HoldsRemoved(roots: set<Path>, p: Path) {
    exists parent, owner, checkout ::
      p == parent + [".grapher-workspaces", owner] && parent + [".grapher-workspaces", owner, checkout] in roots
  }

  lemma CoveredIff(roots: set<Path>, p: Path)
    ensures Under(roots, p) <==> Covered(roots, p)
  {
    if r :| r in roots && r <= p {
      assert p[..|r|] == r;
    }
    if k :| 0 <= k <= |p| && p[..k] in roots {
      assert p[..k] <= p;
    }
  }

  lemma HoldsRemovedIff(roots: set<Path>, p: Path)
    ensures OwnerOf(roots, p) <==> HoldsRemoved(roots, p)
  {
    if r :| r in roots && CheckoutShaped(r) && Parent(r) == p {
      CheckoutIs(r);
      var parent, owner, checkout :| r == parent + [".grapher-workspaces", owner, checkout];
      assert p == parent + [".grapher-workspaces", owner];
    }
    if parent, owner, checkout :|
      p == parent + [".grapher-workspaces", owner] && parent + [".grapher-workspaces", owner, checkout] in roots
    {
      var r := parent + [".grapher-workspaces", owner, checkout];
      CheckoutIs(r);
      assert Parent(r) == p;
    }
  }

  /** A removal that succeeds takes exactly what is at or under a root, and the owner directories of removed checkouts
      that then hold nothing else, but for those the file system keeps. */
  lemma TakenIff(disk: Disk, roots: set<Path>, faults: Faults, disk': Disk, p: Path)
    requires TreeShaped(disk) && (p == [] || p[|p| - 1] != ".grapher-workspaces")
    requires Removes(disk, roots, faults, disk', true) && p in disk.entries
    ensures p !in disk'.entries <==>
            || Covered(roots, p)
            || (HoldsRemoved(roots, p) && (forall q :: q in disk.entries && p < q ==> Covered(roots, q)) && p !in faults.stuck)
  {
    LostIff(disk, roots, faults, disk', p);
    HoldsRemovedIff(roots, p);
    forall q
      ensures Under(roots, q) <==> Covered(roots, q)
    {
      CoveredIff(roots, q);
    }
  }

  // ----- what history needs

  /** What a Run with events needs: a shadow repository that a Run not deleted refers to; what it owns; and the
      planning, session, merger and checkout directories its events name. */
  ghost predicate NeedsTarget(env: Env, s: Store, run: RunId, t: Target) {
    run in s.runs
    && match t
       case Shadow(_, name, _) => run !in s.deleted && RootOf(env, t) + ["shadow_repos", name] in s.runs[run].shadows
       case Data(bucket, id) =>
         || (run in s.owned && t in s.owned[run])
         || (bucket == "planning" && id in s.runs[run].planningIds)
         || (bucket == "sessions" && id in s.runs[run].sessions)
         || (bucket == "mergers" && id in s.runs[run].mergers)
       case Workspace(_, _, _, checkout) =>
         || (run in s.owned && t in s.owned[run])
         || exists id :: checkout == Some(id) && id in s.runs[run].planningIds
  }

  lemma NeedsIff(env: Env, w: World, run: RunId, t: Target)
    ensures Needs(env, w, run, t) <==> NeedsTarget(env, w.store, run, t)
  {}

  /** A target is spared exactly when another Run needs it so. */
  lemma SharedIff(env: Env, s: Store, excluded: RunId, t: Target)
    ensures Shared(env, s, excluded, t) <==> exists run :: run != excluded && NeedsTarget(env, s, run, t)
  {
    if run :| run != excluded && NeedsTarget(env, s, run, t) {
      NeedsIff(env, World(s, Disk({}, {})), run, t);
    }
    if run :| run in s.runs && run != excluded && NeededBy(env, s, run, t) {
      NeedsIff(env, World(s, Disk({}, {})), run, t);
    }
  }

  /** The paths handed to removal: what resolves, is needed by no other Run, and is at or above no protected source. */
  lemma RootIff(env: Env, s: Store, disk: Disk, run: RunId, m: Manifest, p: Path)
    ensures p in Roots(env, s, disk, run, m) <==>
            exists t :: t in m.targets && p == PathOf(env, t) && Resolve(env, disk, run, t) == Ok(Some(p))
                        && (forall other :: NeedsTarget(env, s, other, t) ==> other == run)
                        && (forall source :: source in m.protectedSources ==> !(p <= source))
  {
    forall t
      ensures Shared(env, s, run, t) <==> exists other :: other != run && NeedsTarget(env, s, other, t)
    {
      SharedIff(env, s, run, t);
    }
    if p in Roots(env, s, disk, run, m) {
      var t := RootIs(env, s, disk, run, m, p);
      var u :| u in m.targets && IsRoot(env, s, disk, run, m, u) && PathOf(env, u) == p;
    }
    if t :| t in m.targets && p == PathOf(env, t) && Resolve(env, disk, run, t) == Ok(Some(p))
            && (forall other :: NeedsTarget(env, s, other, t) ==> other == run)
            && (forall source :: source in m.protectedSources ==> !(p <= source)) {
      assert IsRoot(env, s, disk, run, m, t);
    }
  }

  // ----- what a collection finds

  ghost predicate Own(run: RunId, parent: Path, t: Target) {
    t == Workspace(Absolute(parent), ".grapher-worktrees", run, None) || t == Workspace(Absolute(parent), ".grapher-workspaces", run, None)
  }

  /** The binding can be read and leads to a directory: worktrees in the private parent, both roots beside the source. */
  ghost predicate ByBinding(env: Env, disk: Disk, run: RunId, r: Run, luck: Luck, t: Target) {
    && luck.configures && env.isUuid(run)
    && exists source, environment :: r.config == Some(Config(Absolute(source), environment))
                                     && source in disk.entries && source !in disk.blocked
                                     && (t == Workspace(Absolute(env.home), ".grapher-worktrees", run, None)
                                         || (source != [] && Own(run, source[..|source| - 1], t)))
  }

  /** What a Run owns by its binding: its environment, its workspaces, and the shadow repository of the source. */
  lemma ConfiguredIff(env: Env, disk: Disk, run: RunId, config: Config, luck: Luck, t: Target)
    ensures Configured(env, disk, run, config, luck).Ok? <==> config.repository.Relative? || luck.configures
    ensures Configured(env, disk, run, config, luck).Ok? ==>
      (t in Configured(env, disk, run, config, luck).value <==>
        || (config.environment && env.isUuid(run) && t == Data("environments", run))
        || exists source :: config.repository == Absolute(source) && source in disk.entries && source !in disk.blocked
             && ((env.isUuid(run) && t == Workspace(Absolute(env.home), ".grapher-worktrees", run, None))
                 || (env.isUuid(run) && source != [] && Own(run, source[..|source| - 1], t))
                 || (exists name :: luck.shadow == Some(name) && t == Shadow(Absolute(env.shadowRoot), name, Some(source)))))
  {
    if config.repository.Absolute? {
      assert config.repository == Absolute(config.repository.path);
    }
  }

  /** A path on record that has the layout of a worktree of the Run, or of a checkout, in a parent that exists. */
  ghost predicate ReadsAs(env: Env, disk: Disk, run: RunId, e: Recorded, t: Target, parent: Path, bucket: string, owner: string,
                          checkout: string) {
    && e.place == Absolute(parent + [bucket, owner, checkout])
    && parent in disk.entries && env.isUuid(owner) && env.isUuid(run)
    && if bucket == ".grapher-worktrees" && owner == run then t == Workspace(Absolute(parent), ".grapher-worktrees", run, None)
       else bucket == ".grapher-workspaces" && env.isUuid(checkout)
            && t == Workspace(Absolute(parent), ".grapher-workspaces", owner, Some(checkout))
  }

  ghost predicate Reads(env: Env, disk: Disk, run: RunId, e: Recorded, t: Target) {
    exists parent, bucket, owner, checkout :: ReadsAs(env, disk, run, e, t, parent, bucket, owner, checkout)
  }

  /** By an execution, unless it is another owner's checkout under another id; by a planning marker of the same id. */
  ghost predicate ByRecord(env: Env, disk: Disk, run: RunId, r: Run, t: Target) {
    exists e :: Reads(env, disk, run, e, t)
                && ((e in r.executions && (t.Workspace? && t.checkout.Some? && t.owner != run ==> t.checkout == Some(e.id)))
                    || (e in r.planning && t.Workspace? && t.checkout == Some(e.id)))
  }

  lemma LegacyReads(env: Env, disk: Disk, run: RunId, e: Recorded, t: Target)
    ensures LegacyWorkspace(env, disk, e.place, run) == Some(t) <==> Reads(env, disk, run, e, t)
  {
    if e.place.Absolute? && |e.place.path| >= 3 {
      var p, n := e.place.path, |e.place.path|;
      assert p == p[..n - 3] + [p[n - 3], p[n - 2], p[n - 1]];
      if LegacyWorkspace(env, disk, e.place, run) == Some(t) {
        assert ReadsAs(env, disk, run, e, t, p[..n - 3], p[n - 3], p[n - 2], p[n - 1]);
      }
    }
    if parent, bucket, owner, checkout :| ReadsAs(env, disk, run, e, t, parent, bucket, owner, checkout) {
      var p := parent + [bucket, owner, checkout];
      assert e.place.path == p && p[..|p| - 3] == parent;
    }
  }

  lemma LegacyIff(env: Env, disk: Disk, run: RunId, r: Run, t: Target)
    ensures t in Legacy(env, disk, run, r) <==> ByRecord(env, disk, run, r, t)
  {
    if t in Legacy(env, disk, run, r) {
      var e :| e in r.executions + r.planning && LegacyWorkspace(env, disk, e.place, run) == Some(t)
               && ((e in r.executions && ByExecution(env, disk, run, e)) || (e in r.planning && ByMarker(env, disk, run, e)));
      LegacyReads(env, disk, run, e, t);
    }
    if e :| Reads(env, disk, run, e, t)
            && ((e in r.executions && (t.Workspace? && t.checkout.Some? && t.owner != run ==> t.checkout == Some(e.id)))
                || (e in r.planning && t.Workspace? && t.checkout == Some(e.id))) {
      LegacyReads(env, disk, run, e, t);
      LegacyIs(env, disk, run, e, t);
    }
  }

  lemma LegacyIs(env: Env, disk: Disk, run: RunId, e: Recorded, t: Target)
    requires LegacyWorkspace(env, disk, e.place, run) == Some(t)
    ensures t.Workspace?
    ensures ByExecution(env, disk, run, e) <==> (t.checkout.Some? && t.owner != run ==> t.checkout == Some(e.id))
    ensures ByMarker(env, disk, run, e) <==> t.checkout == Some(e.id)
  {}

  /** What is found before a missing source is asked about. */
  ghost predicate Known(env: Env, s: Store, disk: Disk, run: RunId, luck: Luck, t: Target)
    requires run in s.runs
  {
    && t.Workspace?
    && ((run in s.owned && t in s.owned[run])
        || ByBinding(env, disk, run, s.runs[run], luck, t)
        || ByRecord(env, disk, run, s.runs[run], t))
  }

  /** The Run is bound to a directory that is not there. */
  ghost predicate SourceMissing(disk: Disk, r: Run, luck: Luck) {
    r.config.Some? && match r.config.value.repository
                      case Relative => !luck.relativeIsDir
                      case Absolute(path) => path !in disk.entries || path in disk.blocked
  }

  /** Both roots of the Run beside every known workspace; if none is known, beside where the source was. */
  ghost predicate BesideMissing(env: Env, s: Store, disk: Disk, run: RunId, luck: Luck, t: Target)
    requires run in s.runs
  {
    && SourceMissing(disk, s.runs[run], luck) && env.isUuid(run)
    && ((exists u :: Known(env, s, disk, run, luck, u) && u.Workspace? && BesideOf(run, u.parent, t))
        || ((forall u :: !Known(env, s, disk, run, luck, u))
            && exists path, environment :: s.runs[run].config == Some(Config(Absolute(path), environment))
                                           && path != [] && ".." !in path && Own(run, path[..|path| - 1], t)))
  }

  ghost predicate BesideOf(run: RunId, parent: Place, t: Target) {
    t == Workspace(parent, ".grapher-worktrees", run, None) || t == Workspace(parent, ".grapher-workspaces", run, None)
  }

  lemma BoundIff(env: Env, s: Store, disk: Disk, run: RunId, luck: Luck, t: Target)
    requires run in s.runs && Bound(env, s, disk, run, luck).Ok? && t.Workspace?
    ensures t in Bound(env, s, disk, run, luck).value <==>
            (run in s.owned && t in s.owned[run]) || ByBinding(env, disk, run, s.runs[run], luck, t)
  {
    var config := s.runs[run].config;
    if config.Some? && config.value.repository.Absolute? {
      assert config == Some(Config(Absolute(config.value.repository.path), config.value.environment));
    }
  }

  lemma MissingIff(env: Env, run: RunId, path: Path, targets: set<Target>, t: Target)
    ensures t in MissingSource(env, run, path, targets) <==>
            && env.isUuid(run)
            && ((exists u :: u in targets && u.Workspace? && BesideOf(run, u.parent, t))
                || ((forall u :: u in targets ==> !u.Workspace?) && path != [] && ".." !in path && Own(run, path[..|path| - 1], t)))
  {
    assert Parents(targets) != {} <==> exists u :: u in targets && u.Workspace? by {
      if u :| u in targets && u.Workspace? {
        assert u.parent in Parents(targets);
      }
      if Parents(targets) != {} {
        var parent :| parent in Parents(targets);
      }
    }
    if u :| u in targets && u.Workspace? && BesideOf(run, u.parent, t) {
      var bucket := t.bucket;
      assert bucket in {WORKTREES, WORKSPACES} && t == Workspace(u.parent, bucket, run, None);
    }
  }

  /** A collection goes through exactly when markers can be read, and the binding too unless some workspace is on record. */
  lemma CollectedOkIff(env: Env, s: Store, disk: Disk, run: RunId, luck: Luck)
    requires run in s.runs
    ensures Collected(env, s, disk, run, luck).Ok? <==>
            && luck.collects
            && (s.runs[run].config.Some? && s.runs[run].config.value.repository.Absolute? && !luck.configures ==>
                 exists t :: run in s.owned && t in s.owned[run] && t.Workspace?)
  {
    OnlyWorkspacesIs(OwnedBy(s, run));
  }

  /** The targets of a collection: workspaces owned, bound to or on record, and those beside a missing source. */
  lemma CollectedIff(env: Env, s: Store, disk: Disk, run: RunId, luck: Luck, t: Target)
    requires run in s.runs && Collected(env, s, disk, run, luck).Ok?
    ensures t in Collected(env, s, disk, run, luck).value.targets <==>
            Known(env, s, disk, run, luck, t) || BesideMissing(env, s, disk, run, luck, t)
    ensures var m := Collected(env, s, disk, run, luck).value;
            m.sequence == Some(s.runs[run].sequence) && m.protectedSources == s.sources + s.runs[run].sources
  {
    var r := s.runs[run];
    var known := Bound(env, s, disk, run, luck).value + Legacy(env, disk, run, r);
    forall u
      ensures u in known && u.Workspace? <==> Known(env, s, disk, run, luck, u)
    {
      if u.Workspace? {
        BoundIff(env, s, disk, run, luck, u);
        LegacyIff(env, disk, run, r, u);
      }
    }
    var missing := MissingBinding(disk, r, luck);
    assert missing.Some? <==> SourceMissing(disk, r, luck);
    if missing.Some? {
      var path := if missing.value.Relative? then [] else missing.value.path;
      MissingIff(env, run, path, known, t);
      assert r.config == Some(Config(missing.value, r.config.value.environment));
    }
    assert t in Collected(env, s, disk, run, luck).value.targets <==>
           t.Workspace? && t in WithMissing(env, run, missing, known);
  }

  /** Where the workspaces of an unresolved repository are: by its binding if the directory is back, else beside known
      ones or beside where it was. */
  ghost predicate Recovers(env: Env, disk: Disk, run: RunId, path: Path, targets: set<Target>, t: Target) {
    && env.isUuid(run)
    && if path in disk.entries && path !in disk.blocked then
         || t == Workspace(Absolute(env.home), ".grapher-worktrees", run, None)
         || (path != [] && Own(run, path[..|path| - 1], t))
       else
         || (exists u :: u in targets && u.Workspace? && BesideOf(run, u.parent, t))
         || ((forall u :: u in targets ==> !u.Workspace?) && path != [] && ".." !in path && Own(run, path[..|path| - 1], t))
  }

  /** The shadow repository of a source that is back. */
  ghost predicate ShadowBack(env: Env, disk: Disk, path: Path, luck: Luck, t: Target) {
    path in disk.entries && path !in disk.blocked
    && exists name :: luck.shadow == Some(name) && t == Shadow(Absolute(env.shadowRoot), name, Some(path))
  }

  lemma FoundIff(env: Env, disk: Disk, run: RunId, path: Path, targets: set<Target>, luck: Luck, t: Target)
    ensures Found(env, disk, run, path, targets, luck).Ok? <==>
            if path in disk.entries && path !in disk.blocked then luck.configures else luck.recovers
    ensures Found(env, disk, run, path, targets, luck).Ok? ==>
            (t in Found(env, disk, run, path, targets, luck).value <==>
             Recovers(env, disk, run, path, targets, t) || ShadowBack(env, disk, path, luck, t))
  {
    MissingIff(env, run, path, targets, t);
    ConfiguredIff(env, disk, run, Config(Absolute(path), false), luck, t);
  }

  /** An admitted plan with an unresolved repository goes on with what is found, and resolved, if a workspace is found;
      else as it is. It is refused if the binding, or what is beside it, cannot be read. */
  lemma RecoverIs(env: Env, disk: Disk, p: Prepared, run: RunId, luck: Luck, path: Path)
    requires p.decision.Go? && p.decision.manifest.unresolved == Some(path)
    ensures var m, q := p.decision.manifest, Recover(env, disk, p, run, luck);
            if !(if path in disk.entries && path !in disk.blocked then luck.configures else luck.recovers) then
              q.decision == Refused && q.store == p.store
            else if exists t :: Recovers(env, disk, run, path, m.targets, t) then
              && q.decision.Go? && q.decision.manifest.unresolved == None
              && (forall t: Target :: t in q.decision.manifest.targets <==>
                   t in m.targets || Recovers(env, disk, run, path, m.targets, t) || ShadowBack(env, disk, path, luck, t))
              && q.decision.manifest.sequence == m.sequence && q.decision.manifest.protectedSources == m.protectedSources
              && q.store == Enqueued(p.store, run, q.decision.manifest)
            else q == p
  {
    var m := p.decision.manifest;
    var found := Found(env, disk, run, path, m.targets, luck);
    forall t
      ensures Recovers(env, disk, run, path, m.targets, t) ==> t.Workspace?
      ensures found.Ok? ==>
              (t in found.value <==> Recovers(env, disk, run, path, m.targets, t) || ShadowBack(env, disk, path, luck, t))
    {
      FoundIff(env, disk, run, path, m.targets, luck, t);
    }
    FoundIff(env, disk, run, path, m.targets, luck, Data("", ""));
    if found.Ok? {
      OnlyWorkspacesIs(found.value);
      assert (exists t :: t in found.value && t.Workspace?) <==> exists t :: Recovers(env, disk, run, path, m.targets, t);
    }
  }

  /** An admitted plan with nothing unresolved is carried out exactly when all of its targets resolve and pruning works,
      and it then protects every recorded source. */
  lemma CheckedIs(env: Env, disk: Disk, p: Prepared, run: RunId, luck: Luck)
    requires p.decision.Go?
    ensures var m, q := p.decision.manifest, Checked(env, disk, p, run, luck);
            if (forall t :: t in m.targets ==> Resolve(env, disk, run, t).Ok?) && luck.prunes then
              q.decision == Go(m.(protectedSources := m.protectedSources + p.store.sources))
            else q.decision == Refused
  {}

  // ----- what success records

  /** A workspace cleanup that ends is recorded at the sequence of its Run; the record of a deleted Run goes. */
  lemma SuccessRecorded(env: Env, s: Store, disk: Disk, task: Task, luck: Luck, s': Store, disk': Disk,
        removed: bool, ok: bool)
    requires Attempted(env, s, disk, task, luck, s', disk', removed, ok) && ok
    requires task.run in s.tasks && task.manifest == s.tasks[task.run].manifest
    ensures task.run in s.deleted ==> s'.done == s.done - {task.run} && task.run !in s'.owned
    ensures task.run !in s.deleted ==> task.manifest.sequence.Some? && s'.done == s.done[task.run := task.manifest.sequence.value]
  {
    PlanKeepsOwnership(env, s, disk, task, luck);
  }

  /** A new task starts with no failure; a task that is there takes the new manifest and keeps its count. */
  lemma EnqueuedIs(s: Store, run: RunId, m: Manifest)
    ensures var s' := Enqueued(s, run, m);
      && s' == s.(tasks := s'.tasks) && s'.tasks.Keys == s.tasks.Keys + {run}
      && s'.tasks[run] == (if run in s.tasks then Row(m, s.tasks[run].attempts, s.tasks[run].failed) else Row(m, 0, false))
      && forall r :: r in s.tasks && r != run ==> s'.tasks[r] == s.tasks[r]
  {}
}
