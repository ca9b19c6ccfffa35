/** What an interrupted attachment operation leaves behind, what can be repeated after it, and what stays broken. */
module AttachmentRecovery {
  import opened Wrappers
  import opened Collections
  import opened AttachmentInputs

  // ----- staging and removal, cut off

  /** A write that creates its file is in place once it is whole; before it is created nothing has happened. */
  lemma ImmutableCut(fs: Files, file: File, bytes: Bytes, n: nat)
    requires ImmutablePlan(fs, file, bytes).verdict == Done && n <= |ImmutablePlan(fs, file, bytes).steps|
    ensures n <= |bytes| + 1
    ensures Exec(fs, ImmutablePlan(fs, file, bytes).steps[..n]) == if n == 0 then fs else fs[file := bytes[..n - 1]]
  {
    if file !in fs {
      WriteCut(fs, file, bytes, n);
    }
  }

  lemma ImmutableWhole(fs: Files, file: File, bytes: Bytes)
    requires ImmutablePlan(fs, file, bytes).verdict == Done
    ensures Exec(fs, ImmutablePlan(fs, file, bytes).steps) == fs[file := bytes]
  {
    if file in fs {
      assert fs[file := bytes] == fs;
    } else {
      WriteAll(fs, file, bytes);
    }
  }

  function ContentSteps(fs: Files, id: Id, bytes: Bytes): seq<FileStep> {
    ImmutablePlan(fs, Content(id), bytes).steps
  }

  function ManifestBytes(f: Format, node: string, name: string, bytes: Bytes): Bytes {
    f.encode(Input(node, name, f.hash(bytes)))
  }

  /** What staging leaves when it stops at step `n`, of which `c` write the content: part of the content, or all of it
      and part of the manifest. */
  ghost function StagedUpTo(fs: Files, id: Id, bytes: Bytes, manifest: Bytes, c: nat, n: nat): Files
    requires if n <= c then n <= |bytes| + 1 else n - c <= |manifest| + 1
  {
    if n == 0 then fs
    else if n <= c then fs[Content(id) := bytes[..n - 1]]
    else fs[Content(id) := bytes][Manifest(id) := manifest[..n - c - 1]]
  }

  lemma StageCut(f: Format, fs: Files, node: string, id: Id, name: string, bytes: Bytes, n: nat)
    requires StagePlan(f, fs, node, id, name, bytes).verdict == Done
    requires n <= |StagePlan(f, fs, node, id, name, bytes).steps|
    ensures var c, manifest := |ContentSteps(fs, id, bytes)|, ManifestBytes(f, node, name, bytes);
      var rest := ImmutablePlan(fs, Manifest(id), manifest);
      && |StagePlan(f, fs, node, id, name, bytes).steps| == c + |rest.steps| && rest.verdict == Done
      && (if n <= c then n <= |bytes| + 1 else n - c <= |manifest| + 1)
      && Exec(fs, StagePlan(f, fs, node, id, name, bytes).steps[..n]) == StagedUpTo(fs, id, bytes, manifest, c, n)
  {
    var a := ContentSteps(fs, id, bytes);
    var b := ImmutablePlan(fs, Manifest(id), ManifestBytes(f, node, name, bytes)).steps;
    CutOfTwo(fs, a, b, n);
    if n <= |a| {
      ImmutableCut(fs, Content(id), bytes, n);
    } else {
      ImmutableWhole(fs, Content(id), bytes);
      ImmutableCut(Exec(fs, a), Manifest(id), ManifestBytes(f, node, name, bytes), n - |a|);
    }
  }

  /** Staging that would have been done is cut off: it can be repeated exactly when the cut is inside neither file. */
  lemma StageRetryIff(f: Format, fs: Files, node: string, id: Id, name: string, bytes: Bytes, n: nat)
    requires StagePlan(f, fs, node, id, name, bytes).verdict == Done
    requires n <= |StagePlan(f, fs, node, id, name, bytes).steps|
    ensures var steps := StagePlan(f, fs, node, id, name, bytes).steps;
      StagePlan(f, Exec(fs, steps[..n]), node, id, name, bytes).verdict == Done <==>
      n == 0 || n == |ContentSteps(fs, id, bytes)| || n == |steps|
  {
    var manifest := ManifestBytes(f, node, name, bytes);
    StageCut(f, fs, node, id, name, bytes, n);
    WriteTouches(Content(id), bytes);
    WriteTouches(Manifest(id), manifest);
    TakeAll(bytes);
    TakeAll(manifest);
  }

  /** And the upload can be removed exactly when the cut is not inside the manifest. */
  lemma RemovableIff(f: Format, fs: Files, node: string, id: Id, name: string, bytes: Bytes, n: nat)
    requires Lawful(f) && StagePlan(f, fs, node, id, name, bytes).verdict == Done
    requires n <= |StagePlan(f, fs, node, id, name, bytes).steps|
    ensures var steps := StagePlan(f, fs, node, id, name, bytes).steps;
      RemovePlan(f, Exec(fs, steps[..n]), node, id, name).verdict == Done <==>
      n <= |ContentSteps(fs, id, bytes)| || n == |steps|
  {
    var manifest := ManifestBytes(f, node, name, bytes);
    StageCut(f, fs, node, id, name, bytes, n);
    WriteTouches(Manifest(id), manifest);
    TakeAll(manifest);
  }

  /** A removal that is cut off can always be repeated. */
  lemma RemovalRepeats(f: Format, fs: Files, node: string, id: Id, name: string, n: nat)
    requires RemovePlan(f, fs, node, id, name).verdict == Done && n <= |RemovePlan(f, fs, node, id, name).steps|
    ensures RemovePlan(f, Exec(fs, RemovePlan(f, fs, node, id, name).steps[..n]), node, id, name).verdict == Done
  {
    var a, b := UnlinkSteps(fs, Manifest(id)), UnlinkSteps(fs, Content(id));
    CutOfTwo(fs, a, b, n);
    UnlinkCut(fs, Manifest(id), |a|);
    TakeAll(a);
    if n <= |a| {
      UnlinkCut(fs, Manifest(id), n);
    } else {
      var rest := b[..n - |a|];
      assert Avoids(rest, Manifest(id));
      AvoidsFrame(Exec(fs, a), rest, Manifest(id));
    }
  }

  // ----- what no operation touches

  /** The file steps of an action, as far as it gets. */
  ghost function StepsOf(f: Format, node: string, fs: Files, action: Action): seq<FileStep> {
    match action
    case Stage(id, name, bytes, n) => Cut(StagePlan(f, fs, node, id, name, bytes).steps, n)
    case Remove(id, name, n) => Cut(RemovePlan(f, fs, node, id, name).steps, n)
    case Deliver(ids, ws, preserve, n) => Cut(DeliverPlan(f, fs, node, ids, ws, preserve).steps, n)
    case AgentWrites(ws, id, name, bytes) => WriteSteps(Copy(ws, id, name), bytes)
    case AgentDeletes(ws, id, name) => [Unlink(Copy(ws, id, name))]
  }

  lemma ActIs(f: Format, node: string, w: World, action: Action)
    ensures Act(f, node, w, action).files == Exec(w.files, StepsOf(f, node, w.files, action))
  {
    var w' := if action.Stage? then w.(uploads := w.uploads + {Upload(action.id, action.name, action.bytes)}) else w;
    ExecWorldIs(f, w', StepsOf(f, node, w.files, action));
  }

  ghost predicate Unchanged(fs: Files, fs': Files, file: File) {
    (file in fs <==> file in fs') && (file in fs ==> fs'[file] == fs[file])
  }

  lemma AvoidedByAct(f: Format, node: string, w: World, action: Action, file: File)
    requires Avoids(StepsOf(f, node, w.files, action), file)
    ensures Unchanged(w.files, Act(f, node, w, action).files, file)
  {
    ActIs(f, node, w, action);
    AvoidsFrame(w.files, StepsOf(f, node, w.files, action), file);
  }

  lemma CutAvoids(steps: seq<FileStep>, n: nat, file: File)
    requires Avoids(steps, file)
    ensures Avoids(Cut(steps, n), file)
  {}

  lemma ImmutableAvoids(fs: Files, file: File, bytes: Bytes, other: File)
    requires file != other
    ensures Avoids(ImmutablePlan(fs, file, bytes).steps, other)
  {
    WriteAvoids(file, bytes, other);
  }

  lemma StageAvoids(f: Format, fs: Files, node: string, id: Id, name: string, bytes: Bytes, other: File)
    requires other != Content(id) && other != Manifest(id)
    ensures Avoids(StagePlan(f, fs, node, id, name, bytes).steps, other)
  {
    ImmutableAvoids(fs, Content(id), bytes, other);
    ImmutableAvoids(fs, Manifest(id), ManifestBytes(f, node, name, bytes), other);
  }

  /** An id that is not deliverable refuses every delivery that names it, also one that names ids repeatedly. */
  lemma {:induction false} OneRefuses(f: Format, fs: Files, node: string, ids: seq<Id>, ws: WorkspaceKey, preserve: bool, id: Id)
    requires id in ids && !Deliverable(f, fs, node, id, ws)
    ensures DeliverPlan(f, fs, node, ids, ws, preserve).verdict == Refused
    decreases |ids|
  {
    DeliverOneDoneIff(f, fs, node, ids[0], ws, preserve);
    HeadOrRest(ids, id);
    if id != ids[0] && Deliverable(f, fs, node, ids[0], ws) {
      var fs' := Exec(fs, DeliverOnePlan(f, fs, node, ids[0], ws, preserve).steps);
      DeliverOneFrame(f, fs, node, ids[0], ws, preserve, id);
      SameForDeliverable(f, fs, fs', node, id, ws);
      OneRefuses(f, fs', node, ids[1..], ws, preserve, id);
    }
  }

  // ----- a manifest that was cut off

  /** The content is there and the manifest cannot be read. */
  ghost predicate Unreadable(f: Format, fs: Files, id: Id) {
    Content(id) in fs && Manifest(id) in fs && f.decode(fs[Manifest(id)]) == None
  }

  /** Such an id can be neither staged again, under whatever name, nor removed, nor delivered. */
  lemma UnreadableRefuses(f: Format, fs: Files, node: string, id: Id, name: string, bytes: Bytes)
    requires Lawful(f) && Unreadable(f, fs, id)
    ensures StagePlan(f, fs, node, id, name, bytes) == Plan([], Refused)
    ensures RemovePlan(f, fs, node, id, name) == Plan([], Refused)
    ensures forall ws :: !Deliverable(f, fs, node, id, ws)
  {
    assert f.decode(ManifestBytes(f, node, name, bytes)).Some?;
  }

  lemma UnreadableAvoided(f: Format, node: string, fs: Files, action: Action, id: Id, file: File)
    requires Lawful(f) && Unreadable(f, fs, id) && (file == Content(id) || file == Manifest(id))
    ensures Avoids(StepsOf(f, node, fs, action), file)
  {
    match action
    case Stage(other, name, bytes, n) =>
      if other == id {
        UnreadableRefuses(f, fs, node, id, name, bytes);
      } else {
        StageAvoids(f, fs, node, other, name, bytes, file);
        CutAvoids(StagePlan(f, fs, node, other, name, bytes).steps, n, file);
      }
    case Remove(other, name, n) =>
      if other == id {
        UnreadableRefuses(f, fs, node, id, name, []);
      } else {
        CutAvoids(RemovePlan(f, fs, node, other, name).steps, n, file);
      }
    case Deliver(ids, ws, preserve, n) =>
      DeliverTouchesIds(f, fs, node, ids, ws, preserve);
      CutAvoids(DeliverPlan(f, fs, node, ids, ws, preserve).steps, n, file);
    case AgentWrites(ws, other, name, bytes) => WriteAvoids(Copy(ws, other, name), bytes, file);
    case AgentDeletes(_, _, _) =>
  }

  lemma UnreadableStays(f: Format, node: string, w: World, action: Action, id: Id)
    requires Lawful(f) && Unreadable(f, w.files, id)
    ensures Unreadable(f, Act(f, node, w, action).files, id)
  {
    UnreadableAvoided(f, node, w.files, action, id, Content(id));
    UnreadableAvoided(f, node, w.files, action, id, Manifest(id));
    AvoidedByAct(f, node, w, action, Content(id));
    AvoidedByAct(f, node, w, action, Manifest(id));
  }

  lemma RunMore(f: Format, node: string, actions: seq<Action>, more: seq<Action>)
    requires more != []
    ensures Run(f, node, actions + more) ==
            Act(f, node, Run(f, node, actions + more[..|more| - 1]), more[|more| - 1])
  {
    assert (actions + more)[..|actions + more| - 1] == actions + more[..|more| - 1];
  }

  /** However a run goes on, no operation ever repairs a manifest that cannot be read. */
  lemma {:induction false} UnreadableForever(f: Format, node: string, actions: seq<Action>, more: seq<Action>, id: Id)
    requires Lawful(f) && Unreadable(f, Run(f, node, actions).files, id)
    ensures Unreadable(f, Run(f, node, actions + more).files, id)
  {
    if more == [] {
      assert actions + more == actions;
    } else {
      UnreadableForever(f, node, actions, more[..|more| - 1], id);
      RunMore(f, node, actions, more);
      UnreadableStays(f, node, Run(f, node, actions + more[..|more| - 1]), more[|more| - 1], id);
    }
  }

  /** A crash right after the manifest was created is enough. */
  lemma UnreadableRun(f: Format, node: string, id: Id, name: string, bytes: Bytes) returns (actions: seq<Action>)
    requires Lawful(f) && ValidName(name) && ManifestBytes(f, node, name, bytes) != []
    ensures Unreadable(f, Run(f, node, actions).files, id)
  {
    var n := |bytes| + 2;
    var a := Action.Stage(id, name, bytes, n);
    actions := [a];
    var fs: Files := map[];
    WriteTouches(Content(id), bytes);
    WriteTouches(Manifest(id), ManifestBytes(f, node, name, bytes));
    StageCut(f, fs, node, id, name, bytes, n);
    RunOneMore(f, node, [], a);
    assert [] + [a] == [a];
    ActIs(f, node, World(map[], {}, {}), a);
    assert ManifestBytes(f, node, name, bytes)[..0] == [];
  }

  // ----- a receipt that was cut off

  ghost predicate HalfReceipt(fs: Files, id: Id, ws: WorkspaceKey) {
    Receipt(id, ws) in fs && |fs[Receipt(id, ws)]| != 40
  }

  lemma HalfReceiptRefuses(f: Format, fs: Files, node: string, id: Id, ws: WorkspaceKey)
    requires Lawful(f) && HalfReceipt(fs, id, ws) && Manifest(id) in fs
    ensures !Deliverable(f, fs, node, id, ws)
  {}

  lemma OneAvoidsReceipt(f: Format, fs: Files, node: string, other: Id, to: WorkspaceKey, preserve: bool, id: Id, ws: WorkspaceKey)
    requires Lawful(f) && HalfReceipt(fs, id, ws)
    ensures Avoids(DeliverOnePlan(f, fs, node, other, to, preserve).steps, Receipt(id, ws))
  {
    if other == id && to == ws {
      if Manifest(id) in fs {
        HalfReceiptRefuses(f, fs, node, id, ws);
        DeliverOneDoneIff(f, fs, node, id, ws, preserve);
      }
    } else {
      var touched := DeliverOneTouchesOwn(f, fs, node, other, to, preserve);
    }
  }

  lemma {:induction false} DeliverAvoidsReceipt(f: Format, fs: Files, node: string, ids: seq<Id>, to: WorkspaceKey, preserve: bool,
        id: Id, ws: WorkspaceKey)
    requires Lawful(f) && HalfReceipt(fs, id, ws)
    ensures Avoids(DeliverPlan(f, fs, node, ids, to, preserve).steps, Receipt(id, ws))
    decreases |ids|
  {
    if ids != [] {
      var one := DeliverOnePlan(f, fs, node, ids[0], to, preserve);
      OneAvoidsReceipt(f, fs, node, ids[0], to, preserve, id, ws);
      AvoidsFrame(fs, one.steps, Receipt(id, ws));
      DeliverAvoidsReceipt(f, Exec(fs, one.steps), node, ids[1..], to, preserve, id, ws);
    }
  }

  lemma HalfReceiptAvoided(f: Format, node: string, fs: Files, action: Action, id: Id, ws: WorkspaceKey)
    requires Lawful(f) && HalfReceipt(fs, id, ws)
    ensures Avoids(StepsOf(f, node, fs, action), Receipt(id, ws))
  {
    match action
    case Stage(other, name, bytes, n) =>
      StageAvoids(f, fs, node, other, name, bytes, Receipt(id, ws));
      CutAvoids(StagePlan(f, fs, node, other, name, bytes).steps, n, Receipt(id, ws));
    case Remove(other, name, n) => CutAvoids(RemovePlan(f, fs, node, other, name).steps, n, Receipt(id, ws));
    case Deliver(ids, to, preserve, n) =>
      DeliverAvoidsReceipt(f, fs, node, ids, to, preserve, id, ws);
      CutAvoids(DeliverPlan(f, fs, node, ids, to, preserve).steps, n, Receipt(id, ws));
    case AgentWrites(to, other, name, bytes) => WriteAvoids(Copy(to, other, name), bytes, Receipt(id, ws));
    case AgentDeletes(_, _, _) =>
  }

  /** However a run goes on, a receipt that was cut off stays, and refuses every delivery of its id to its workspace
      while the id is staged. */
  lemma {:induction false} HalfReceiptForever(f: Format, node: string, actions: seq<Action>, more: seq<Action>, id: Id, ws: WorkspaceKey)
    requires Lawful(f) && HalfReceipt(Run(f, node, actions).files, id, ws)
    ensures var fs := Run(f, node, actions + more).files;
      && HalfReceipt(fs, id, ws)
      && (Manifest(id) in fs ==>
            forall ids, preserve :: id in ids ==> DeliverPlan(f, fs, node, ids, ws, preserve).verdict == Refused)
  {
    var fs := Run(f, node, actions + more).files;
    if more == [] {
      assert actions + more == actions;
    } else {
      var w, last := Run(f, node, actions + more[..|more| - 1]), more[|more| - 1];
      HalfReceiptForever(f, node, actions, more[..|more| - 1], id, ws);
      RunMore(f, node, actions, more);
      HalfReceiptAvoided(f, node, w.files, last, id, ws);
      AvoidedByAct(f, node, w, last, Receipt(id, ws));
    }
    forall ids: seq<Id>, preserve | Manifest(id) in fs && id in ids
      ensures DeliverPlan(f, fs, node, ids, ws, preserve).verdict == Refused
    {
      HalfReceiptRefuses(f, fs, node, id, ws);
      OneRefuses(f, fs, node, ids, ws, preserve, id);
    }
  }

  /** A crash right after the receipt was created is enough. */
  lemma HalfReceiptRun(f: Format, node: string, id: Id, ws: WorkspaceKey, name: string, bytes: Bytes)
    requires Lawful(f) && ValidName(name)
    ensures exists actions :: HalfReceipt(Run(f, node, actions).files, id, ws) && Manifest(id) in Run(f, node, actions).files
  {
    var w0, b := World(map[], {}, {}), name + "x";
    var s1 := Staged(f, node, w0, id, name, bytes, ws, b, f.hash(bytes));
    var w1 := Act(f, node, w0, s1);
    var s2 := Action.Deliver([id], ws, false, |bytes| + 2);
    CutDelivery(f, node, w1, id, ws, name, bytes);
    assert [] + [s1] == [s1] && [s1] + [s2] == [s1, s2];
    RunOneMore(f, node, [], s1);
    RunOneMore(f, node, [s1], s2);
    assert HalfReceipt(Run(f, node, [s1, s2]).files, id, ws);
  }

  lemma CutDelivery(f: Format, node: string, w: World, id: Id, ws: WorkspaceKey, name: string, bytes: Bytes)
    requires Lawful(f) && ValidName(name)
    requires w.files == map[Content(id) := bytes, Manifest(id) := ManifestBytes(f, node, name, bytes)]
    ensures var fs := Act(f, node, w, Action.Deliver([id], ws, false, |bytes| + 2)).files;
      HalfReceipt(fs, id, ws) && Manifest(id) in fs
  {
    var h, n := f.hash(bytes), |bytes| + 2;
    FirstPlan(f, w.files, node, id, ws, name, bytes);
    ReplaceCut(w.files, id, ws, name, bytes, h, n);
    assert h[..0] == [];
    ActIs(f, node, w, Action.Deliver([id], ws, false, n));
  }

  /** The steps of a first delivery of one freshly staged id. */
  lemma FirstPlan(f: Format, fs: Files, node: string, id: Id, ws: WorkspaceKey, name: string, bytes: Bytes)
    requires Lawful(f) && ValidName(name)
    requires fs == map[Content(id) := bytes, Manifest(id) := ManifestBytes(f, node, name, bytes)]
    ensures DeliverPlan(f, fs, node, [id], ws, false).steps ==
            UnlinkSteps(fs, Receipt(id, ws)) + WriteSteps(Copy(ws, id, name), bytes) + WriteSteps(Receipt(id, ws), f.hash(bytes))
    ensures UnlinkSteps(fs, Receipt(id, ws)) == []
  {
    var steps :=
      UnlinkSteps(fs, Receipt(id, ws)) + WriteSteps(Copy(ws, id, name), bytes) + WriteSteps(Receipt(id, ws), f.hash(bytes));
    assert Intact(f, fs, node, id) == Some(Input(node, name, f.hash(bytes)));
    assert DeliverOnePlan(f, fs, node, id, ws, false) == Plan(steps, Done);
    assert [id][1..] == [] && steps + [] == steps;
  }
}
